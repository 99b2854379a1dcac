// Moving reference samples to the head of their chains (move_refsamples, scamp/src/crossid.c),
// on the backward links as a map: what one step does, and what all steps together amount to.

module RefChains {
  import opened Samples
  import opened Linking

  /** The backward links: from each linked sample to its predecessor. */
  type Links = map<Sample, Sample>

  /** Each predecessor is older, except that a reference sample may stand first before anything. */
  ghost predicate Grounded(m: Links) {
    forall s :: s in m ==> Older(m[s], s) || (m[s].field.isrefcat && m[s] !in m)
  }

  ghost predicate WellLinked(m: Links) {
    Injective(m) && Grounded(m)
  }

  ghost function Before(m: Links, s: Sample): set<Sample> {
    set x | x in m && Older(x, s)
  }

  lemma FewerBefore(m: Links, s: Sample)
    requires Grounded(m) && s in m && m[s] in m
    ensures |Before(m, m[s])| < |Before(m, s)|
  {
    forall x | x in Before(m, m[s]) ensures x in Before(m, s) {
      CmpTransitive(x, m[s], s);
    }
    CmpAntisymmetric(m[s], m[s]);
    assert m[s] in Before(m, s) && m[s] !in Before(m, m[s]);
    SubsetSize(Before(m, m[s]), Before(m, s));
  }

  lemma NotOwnPredecessor(m: Links, s: Sample)
    requires Grounded(m) && s in m
    ensures m[s] != s
  {
    CmpAntisymmetric(s, s);
  }

  /** How far the head of the chain can be. */
  ghost function Reach(m: Links, s: Sample): nat {
    if s in m then 1 + |Before(m, s)| else 0
  }

  lemma ReachShrinks(m: Links, s: Sample)
    requires Grounded(m) && s in m
    ensures Reach(m, m[s]) < Reach(m, s)
  {
    if m[s] in m {
      FewerBefore(m, s);
    }
  }

  /** The first sample of the chain of `s`. */
  ghost function Head(m: Links, s: Sample): Sample
    requires Grounded(m)
    decreases Reach(m, s)
  {
    if s !in m then s else (ReachShrinks(m, s); Head(m, m[s]))
  }

  /** The nearest predecessor of `s` that is no reference sample, if there is one. */
  ghost function NonRefBefore(m: Links, s: Sample): Sample?
    requires Grounded(m)
    decreases Reach(m, s)
  {
    if s !in m then null
    else if !m[s].field.isrefcat then m[s]
    else (ReachShrinks(m, s); NonRefBefore(m, m[s]))
  }

  lemma {:induction false} HeadIsFirst(m: Links, s: Sample)
    requires Grounded(m)
    ensures Head(m, s) !in m
    decreases Reach(m, s)
  {
    if s in m {
      ReachShrinks(m, s);
      HeadIsFirst(m, m[s]);
    }
  }

  // ---- Taking a sample out of its chain ----

  ghost function Spliced(m: Links, r: Sample): Links
    requires r in m
  {
    map s | s in m && s != r :: if m[s] == r then m[r] else m[s]
  }

  lemma SplicedWellLinked(m: Links, r: Sample)
    requires WellLinked(m) && r in m
    ensures WellLinked(Spliced(m, r))
    ensures forall s :: s in Spliced(m, r) ==> Spliced(m, r)[s] != r
  {
    var m' := Spliced(m, r);
    CmpAntisymmetric(r, r);
    assert m[r] != r;
    forall s | s in m' ensures Older(m'[s], s) || (m'[s].field.isrefcat && m'[s] !in m') {
      if m[s] == r && Older(m[r], r) { CmpTransitive(m[r], r, s); }
    }
  }

  lemma {:induction false} SplicedHead(m: Links, r: Sample, s: Sample)
    requires WellLinked(m) && r in m && s != r && WellLinked(Spliced(m, r))
    ensures Head(Spliced(m, r), s) == Head(m, s)
    decreases Reach(m, s)
  {
    if s in m {
      ReachShrinks(m, s);
      if m[s] == r {
        ReachShrinks(m, r);
        CmpAntisymmetric(r, r);
        SplicedHead(m, r, m[r]);
      } else {
        SplicedHead(m, r, m[s]);
      }
    }
  }

  lemma {:induction false} SplicedNonRefBefore(m: Links, r: Sample, s: Sample)
    requires WellLinked(m) && r in m && r.field.isrefcat && s != r && WellLinked(Spliced(m, r))
    ensures NonRefBefore(Spliced(m, r), s) == NonRefBefore(m, s)
    decreases Reach(m, s)
  {
    if s in m {
      ReachShrinks(m, s);
      if m[s] == r {
        ReachShrinks(m, r);
        CmpAntisymmetric(r, r);
        SplicedNonRefBefore(m, r, m[r]);
      } else {
        SplicedNonRefBefore(m, r, m[s]);
      }
    }
  }

  // ---- Putting a sample before the head of a chain ----

  lemma PutFirstWellLinked(m: Links, f: Sample, r: Sample)
    requires WellLinked(m) && f !in m && r !in m && r != f && forall s :: s in m ==> m[s] != r
    requires r.field.isrefcat && !f.field.isrefcat
    ensures WellLinked(m[f := r])
  {
  }

  lemma {:induction false} PutFirstHead(m: Links, f: Sample, r: Sample, s: Sample)
    requires WellLinked(m) && f !in m && r !in m && r != f && (forall s :: s in m ==> m[s] != r)
      && WellLinked(m[f := r])
    ensures Head(m[f := r], s) == if Head(m, s) == f then r else Head(m, s)
    decreases Reach(m, s)
  {
    var m' := m[f := r];
    if s in m {
      ReachShrinks(m, s);
      PutFirstHead(m, f, r, m[s]);
    } else if s == f {
      assert m'[s] == r && Head(m', r) == r;
    }
  }

  lemma {:induction false} PutFirstNonRefBefore(m: Links, f: Sample, r: Sample, s: Sample)
    requires WellLinked(m) && f !in m && r !in m && r != f && (forall s :: s in m ==> m[s] != r)
      && WellLinked(m[f := r])
    requires r.field.isrefcat
    ensures NonRefBefore(m[f := r], s) == NonRefBefore(m, s)
    decreases Reach(m, s)
  {
    var m' := m[f := r];
    if s in m {
      ReachShrinks(m, s);
      PutFirstNonRefBefore(m, f, r, m[s]);
    } else if s == f {
      assert m'[s] == r && NonRefBefore(m', r) == null;
    }
  }

  // ---- One reference sample ----

  /** What move_refsamples does to one reference sample: out of its chain, and before the head unless a reference is
      there. */
  ghost function RefMoved(m: Links, r: Sample): Links
    requires WellLinked(m)
  {
    if r !in m then m
    else
      SplicedWellLinked(m, r);
      var m' := Spliced(m, r);
      var first := Head(m', m[r]);
      if first.field.isrefcat then m' else m'[first := r]
  }

  /** No visited reference sample has a predecessor. */
  ghost predicate RefsFirst(m: Links, P: set<Sample>) {
    forall r :: r in P && r.field.isrefcat ==> r !in m
  }

  /** The other samples keep their order. */
  ghost predicate OrderKept(S: set<Sample>, m0: Links, m: Links)
    requires WellLinked(m0) && WellLinked(m)
  {
    forall s :: s in S && !s.field.isrefcat ==> NonRefBefore(m, s) == NonRefBefore(m0, s)
  }

  /** Nobody moves to another chain. */
  ghost predicate ChainsKept(S: set<Sample>, m0: Links, m: Links)
    requires WellLinked(m0) && WellLinked(m)
  {
    forall s :: s in S ==> Head(m, s) in S && Head(m0, Head(m, s)) == Head(m0, s)
  }

  /** Samples of one chain that have not been taken out are still in one chain. */
  ghost predicate Together(S: set<Sample>, m0: Links, m: Links, P: set<Sample>)
    requires WellLinked(m0) && WellLinked(m)
  {
    forall s, t :: s in S && t in S && Stays(s, P) && Stays(t, P) && Head(m0, s) == Head(m0, t) ==>
      Head(m, s) == Head(m, t)
  }

  /** A chain with a visited reference sample begins with a reference sample. */
  ghost predicate RefHeads(S: set<Sample>, m0: Links, m: Links, P: set<Sample>)
    requires WellLinked(m0) && WellLinked(m)
  {
    forall r, s :: r in S && r in P && r.field.isrefcat && s in S && Stays(s, P) && Head(m0, r) == Head(m0, s) ==>
      Head(m, s).field.isrefcat
  }

  /** What holds between the links `m0` before move_refsamples and the links `m` once the samples of `P` have been
      visited. */
  ghost predicate MovedSoFar(S: set<Sample>, m0: Links, m: Links, P: set<Sample>) {
    && WellLinked(m0) && WellLinked(m)
    && RefsFirst(m, P) && OrderKept(S, m0, m) && ChainsKept(S, m0, m) && Together(S, m0, m, P) && RefHeads(S, m0, m, P)
  }

  /** Samples that have not been taken out of their chains yet. */
  predicate Stays(s: Sample, P: set<Sample>) {
    !s.field.isrefcat || s !in P
  }

  lemma MovedStart(S: set<Sample>, m: Links)
    requires WellLinked(m) && forall s :: s in S && s in m ==> m[s] in S
    ensures MovedSoFar(S, m, m, {})
  {
    forall s | s in S ensures Head(m, s) in S && Head(m, Head(m, s)) == Head(m, s) {
      HeadInside(S, m, s);
      HeadIsFirst(m, s);
    }
  }

  lemma {:induction false} HeadInside(S: set<Sample>, m: Links, s: Sample)
    requires Grounded(m) && s in S && forall s :: s in S && s in m ==> m[s] in S
    ensures Head(m, s) in S
    decreases Reach(m, s)
  {
    if s in m {
      ReachShrinks(m, s);
      HeadInside(S, m, m[s]);
    }
  }

  /** The conditions under which a sample was put first. */
  lemma MovedIs(m: Links, r: Sample)
    requires WellLinked(m) && r in m && r.field.isrefcat
    ensures var m', f := Spliced(m, r), Head(m, r);
      && WellLinked(m') && f !in m' && f != r && r !in m' && (forall s :: s in m' ==> m'[s] != r)
      && RefMoved(m, r) == (if f.field.isrefcat then m' else m'[f := r])
      && WellLinked(RefMoved(m, r))
  {
    var m', f := Spliced(m, r), Head(m, r);
    SplicedWellLinked(m, r);
    CmpAntisymmetric(r, r);
    SplicedHead(m, r, m[r]);
    HeadIsFirst(m, r);
    if !f.field.isrefcat {
      PutFirstWellLinked(m', f, r);
    }
  }

  /** Heads and non-reference predecessors after one step. */
  lemma MovedHead(m: Links, r: Sample, s: Sample)
    requires WellLinked(m) && r in m && r.field.isrefcat && s != r && WellLinked(RefMoved(m, r))
    ensures Head(RefMoved(m, r), s) == if Head(m, s) == Head(m, r) && !Head(m, r).field.isrefcat then r else Head(m, s)
    ensures NonRefBefore(RefMoved(m, r), s) == NonRefBefore(m, s)
  {
    hide RefMoved, Head, NonRefBefore, Injective, Grounded, Spliced;
    MovedIs(m, r);
    SplicedHead(m, r, s);
    SplicedNonRefBefore(m, r, s);
    if !Head(m, r).field.isrefcat {
      PutFirstHead(Spliced(m, r), Head(m, r), r, s);
      PutFirstNonRefBefore(Spliced(m, r), Head(m, r), r, s);
    }
  }

  lemma MovedAlone(m: Links, r: Sample)
    requires WellLinked(m) && r in m && r.field.isrefcat && WellLinked(RefMoved(m, r))
    ensures r !in RefMoved(m, r) && Head(RefMoved(m, r), r) == r
    ensures forall q :: q in RefMoved(m, r) && q.field.isrefcat ==> q in m
  {
    hide RefMoved, WellLinked;
    MovedIs(m, r);
  }

  /** The head of `s` after the step on `r`. */
  ghost function HeadAfter(m: Links, r: Sample, s: Sample): Sample
    requires WellLinked(m)
  {
    if s == r then r else if Head(m, s) == Head(m, r) && !Head(m, r).field.isrefcat then r else Head(m, s)
  }

  ghost predicate SteppedTo(S: set<Sample>, m: Links, m': Links, r: Sample)
    requires WellLinked(m) && WellLinked(m')
  {
    forall s :: s in S ==> Head(m', s) == HeadAfter(m, r, s)
  }

  lemma ChainsKeptStep(S: set<Sample>, m0: Links, m: Links, m': Links, r: Sample)
    requires WellLinked(m0) && WellLinked(m) && WellLinked(m') && SteppedTo(S, m, m', r) && r in S
    requires ChainsKept(S, m0, m)
    ensures ChainsKept(S, m0, m')
  {
    hide Head, WellLinked;
  }

  lemma TogetherStep(S: set<Sample>, m0: Links, m: Links, m': Links, P: set<Sample>, r: Sample)
    requires WellLinked(m0) && WellLinked(m) && WellLinked(m') && SteppedTo(S, m, m', r) && r in S && r.field.isrefcat
    requires Together(S, m0, m, P)
    ensures Together(S, m0, m', P + {r})
  {
    hide Head, WellLinked;
  }

  lemma RefHeadsStep(S: set<Sample>, m0: Links, m: Links, m': Links, P: set<Sample>, r: Sample)
    requires WellLinked(m0) && WellLinked(m) && WellLinked(m') && SteppedTo(S, m, m', r) && r in S && r.field.isrefcat
      && r !in P
    requires Together(S, m0, m, P) && RefHeads(S, m0, m, P)
    ensures RefHeads(S, m0, m', P + {r})
  {
    hide Head, WellLinked;
  }

  /** One more sample visited. */
  lemma MovedStep(S: set<Sample>, m0: Links, m: Links, P: set<Sample>, r: Sample)
    requires MovedSoFar(S, m0, m, P) && r in S && r.field.isrefcat && r !in P
    ensures MovedSoFar(S, m0, RefMoved(m, r), P + {r})
  {
    hide Head, NonRefBefore, Injective, Grounded, Spliced, OrderKept, ChainsKept, Together, RefHeads;
    var m' := RefMoved(m, r);
    MovedKeeps(S, m0, m, r);
    if r in m {
      MovedIs(m, r);
      MovedAlone(m, r);
    }
    ChainsKeptStep(S, m0, m, m', r);
    TogetherStep(S, m0, m, m', P, r);
    RefHeadsStep(S, m0, m, m', P, r);
  }

  lemma MovedKeeps(S: set<Sample>, m0: Links, m: Links, r: Sample)
    requires WellLinked(m0) && WellLinked(m) && r.field.isrefcat && OrderKept(S, m0, m)
    ensures var m' := RefMoved(m, r); WellLinked(m') && SteppedTo(S, m, m', r) && OrderKept(S, m0, m')
  {
    var m' := RefMoved(m, r);
    if r in m {
      hide RefMoved, Head, NonRefBefore, Injective, Grounded;
      MovedIs(m, r);
      MovedAlone(m, r);
      forall s | s in S && s != r
        ensures Head(m', s) == HeadAfter(m, r, s) && NonRefBefore(m', s) == NonRefBefore(m, s)
      {
        MovedHead(m, r, s);
      }
    }
  }

  /** Visiting any sample, as the loop of move_refsamples does. */
  lemma MovedVisit(S: set<Sample>, m0: Links, m: Links, P: set<Sample>, s: Sample)
    requires MovedSoFar(S, m0, m, P) && s in S
    ensures MovedSoFar(S, m0, if s.field.isrefcat then RefMoved(m, s) else m, P + {s})
  {
    hide OrderKept, ChainsKept, Together, RefHeads, WellLinked;
    if s in P {
      assert P + {s} == P;
    } else if s.field.isrefcat {
      MovedStep(S, m0, m, P, s);
    } else {
      OtherVisit(S, m0, m, P, s);
    }
  }

  lemma OtherVisit(S: set<Sample>, m0: Links, m: Links, P: set<Sample>, s: Sample)
    requires MovedSoFar(S, m0, m, P) && !s.field.isrefcat
    ensures MovedSoFar(S, m0, m, P + {s})
  {
    hide OrderKept, ChainsKept, Head, WellLinked;
    assert forall t :: Stays(t, P + {s}) <==> Stays(t, P);
  }

  /** After all samples have been visited, a chain begins with a reference sample exactly if one was anywhere in it,
      no other sample of a chain is one, and the others stand in their old order. */
  lemma AllMoved(S: set<Sample>, m0: Links, m: Links, s: Sample)
    requires MovedSoFar(S, m0, m, S) && s in S
    ensures s.field.isrefcat ==> s !in m
    ensures !s.field.isrefcat ==>
      (Head(m, s).field.isrefcat <==> exists r :: r in S && r.field.isrefcat && Head(m0, r) == Head(m0, s))
    ensures !s.field.isrefcat && s in m && !m[s].field.isrefcat ==> NonRefBefore(m0, s) == m[s]
    ensures !s.field.isrefcat && s in m && m[s].field.isrefcat && m[s] in S ==> NonRefBefore(m0, s) == null
  {
    if !s.field.isrefcat && Head(m, s).field.isrefcat {
      var r := Head(m, s);
      assert r in S && Head(m0, r) == Head(m0, s);
    }
    if !s.field.isrefcat && s in m && m[s].field.isrefcat && m[s] in S {
      assert NonRefBefore(m, m[s]) == null;
    }
  }
}
