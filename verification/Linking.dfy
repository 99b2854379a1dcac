// What "linking every sample to its best match" means, independently of how it is computed:
// stable linkings, their uniqueness, and the greedy linking by increasing weight.

module Linking {
  import opened Samples

  /** A candidate link, from an older sample to a newer one. */
  type Pair = (Sample, Sample)

  /** `a` would rather be followed by `b` than by `b'`: nearer in time, or as near in time and closer. */
  predicate PrefersNext(a: Sample, b: Sample, b': Sample) {
    CmpSamples(b, b') < 0 || (CmpSamples(b, b') == 0 && Dist(a, b) < Dist(a, b'))
  }

  /** `b` would rather be preceded by `a` than by `a'`. */
  predicate PrefersPrev(b: Sample, a: Sample, a': Sample) {
    CmpSamples(a, a') > 0 || (CmpSamples(a, a') == 0 && Dist(a, b) < Dist(a', b))
  }

  /** The weight order on candidate links: epoch gap, then field gap, then distance. */
  predicate Lighter(p: Pair, q: Pair) {
    var gap, gap' := p.1.epoch - p.0.epoch, q.1.epoch - q.0.epoch;
    var rank, rank' := FieldKey(p.1.field) - FieldKey(p.0.field), FieldKey(q.1.field) - FieldKey(q.0.field);
    gap < gap' || (gap == gap' && (rank < rank' || (rank == rank' && Dist(p.0, p.1) < Dist(q.0, q.1))))
  }

  /** Preferences are globally correlated: whoever prefers a link finds it lighter. */
  lemma PreferredIsLighter(a: Sample, b: Sample, c: Sample)
    ensures PrefersNext(a, b, c) ==> Lighter((a, b), (a, c))
    ensures PrefersPrev(b, a, c) ==> Lighter((a, b), (c, b))
  {
  }

  lemma LighterTransitive(p: Pair, q: Pair, r: Pair)
    requires Lighter(p, q) && Lighter(q, r)
    ensures Lighter(p, r)
  {
  }

  // ---- Stable linkings ----

  ghost predicate Injective(m: map<Sample, Sample>) {
    forall a, a' :: a in m && a' in m && m[a] == m[a'] ==> a == a'
  }

  /** Both ends of the candidate link `p` would drop their current link for it. */
  ghost predicate Blocking(m: map<Sample, Sample>, p: Pair) {
    && (p.0 in m ==> PrefersNext(p.0, p.1, m[p.0]))
    && (forall a :: a in m && m[a] == p.1 ==> PrefersPrev(p.1, p.0, a))
  }

  /** `m` links some of the candidates `E`, each sample at most once on each side, and nothing blocks it. */
  ghost predicate Stable(E: set<Pair>, m: map<Sample, Sample>) {
    && Injective(m)
    && (forall a :: a in m ==> (a, m[a]) in E)
    && (forall p :: p in E ==> !Blocking(m, p))
  }

  /** `a` is followed by `kept` for a reason: it is nearer in epoch than `b`, or as near and nearer in the order of
      fields, or as near in both and no farther away. */
  predicate KeepsNext(a: Sample, kept: Sample, b: Sample) {
    || kept.epoch < b.epoch
    || (kept.epoch == b.epoch && FieldKey(kept.field) < FieldKey(b.field))
    || (kept.epoch == b.epoch && FieldKey(kept.field) == FieldKey(b.field) && Dist(a, kept) <= Dist(a, b))
  }

  /** So is `b` preceded by `kept` rather than by `a`. */
  predicate KeepsPrev(b: Sample, kept: Sample, a: Sample) {
    || kept.epoch > a.epoch
    || (kept.epoch == a.epoch && FieldKey(kept.field) > FieldKey(a.field))
    || (kept.epoch == a.epoch && FieldKey(kept.field) == FieldKey(a.field) && Dist(kept, b) <= Dist(a, b))
  }

  /** Stable means that of every candidate pair at least one end is linked for a reason. */
  lemma StableKeeps(E: set<Pair>, m: map<Sample, Sample>)
    ensures Stable(E, m) <==>
      && Injective(m) && (forall a :: a in m ==> (a, m[a]) in E)
      && forall p :: p in E ==>
           || (p.0 in m && KeepsNext(p.0, m[p.0], p.1))
           || exists a :: a in m && m[a] == p.1 && KeepsPrev(p.1, a, p.0)
  {
    hide Dist, Injective;
  }

  /** No sample has two candidates of equal rank at exactly the same distance. */
  ghost predicate TieFree(E: set<Pair>) {
    forall p, q :: p in E && q in E && p != q ==>
      && (p.0 == q.0 && CmpSamples(p.1, q.1) == 0 ==> Dist(p.0, p.1) != Dist(q.0, q.1))
      && (p.1 == q.1 && CmpSamples(p.0, q.0) == 0 ==> Dist(p.0, p.1) != Dist(q.0, q.1))
  }

  ghost function LighterThan(E: set<Pair>, p: Pair): set<Pair> {
    set q | q in E && Lighter(q, p)
  }

  lemma FewerLighter(E: set<Pair>, p: Pair, q: Pair)
    requires q in E && Lighter(q, p)
    ensures |LighterThan(E, q)| < |LighterThan(E, p)|
  {
    var A, B := LighterThan(E, q), LighterThan(E, p);
    forall r | r in A ensures r in B {
      LighterTransitive(r, q, p);
    }
    assert q in B && q !in A;
    SubsetSize(A, B);
  }

  lemma SubsetSize<T>(A: set<T>, B: set<T>)
    requires A < B
    ensures |A| < |B|
  {
    assert |B| == |A| + |B - A| by {
      assert B == A + (B - A);
    }
  }

  /** A link of one stable linking that is missing from another one exposes a lighter disagreement. */
  lemma {:induction false} NoDisagreement(E: set<Pair>, m: map<Sample, Sample>, m': map<Sample, Sample>, a: Sample)
    requires Stable(E, m) && Stable(E, m') && TieFree(E)
    requires a in m
    ensures a in m' && m'[a] == m[a]
    decreases |LighterThan(E, (a, m[a]))|
  {
    var b := m[a];
    if !(a in m' && m'[a] == b) {
      assert (a, b) in E && !Blocking(m', (a, b));
      if a in m' && !PrefersNext(a, b, m'[a]) {
        var b' := m'[a];
        CmpAntisymmetric(b, b');
        PreferredIsLighter(a, b', b);
        FewerLighter(E, (a, b), (a, b'));
        NoDisagreement(E, m', m, a);
      } else {
        var a' :| a' in m' && m'[a'] == b && !PrefersPrev(b, a, a');
        CmpAntisymmetric(a, a');
        PreferredIsLighter(a', b, a);
        FewerLighter(E, (a, b), (a', b));
        NoDisagreement(E, m', m, a');
      }
      assert false;
    }
  }

  /** Without ties there is at most one stable linking. */
  lemma StableIsUnique(E: set<Pair>, m: map<Sample, Sample>, m': map<Sample, Sample>)
    requires Stable(E, m) && Stable(E, m') && TieFree(E)
    ensures m == m'
  {
    forall a | a in m ensures a in m' && m'[a] == m[a] {
      NoDisagreement(E, m, m', a);
    }
    forall a | a in m' ensures a in m && m'[a] == m[a] {
      NoDisagreement(E, m', m, a);
    }
  }

  /** With a tie there may be two: neither of two equally good successors displaces the other. */
  lemma TieIsAmbiguous(a: Sample, b: Sample, c: Sample)
    requires a != b && a != c && b != c && CmpSamples(b, c) == 0 && Dist(a, b) == Dist(a, c)
    ensures var E := {(a, b), (a, c)};
      !TieFree(E) && Stable(E, map[a := b]) && Stable(E, map[a := c]) && map[a := b] != map[a := c]
  {
    var E: set<Pair> := {(a, b), (a, c)};
    CmpAntisymmetric(b, c);
    var p: Pair, q: Pair := (a, b), (a, c);
    assert p in E && q in E && p != q;
    assert map[a := b][a] == b && map[a := c][a] == c;
  }

  // ---- The greedy linking ----

  ghost predicate Lightest(E: set<Pair>, p: Pair) {
    p in E && forall q :: q in E ==> !Lighter(q, p)
  }

  lemma {:induction false} LightestExists(E: set<Pair>)
    requires E != {}
    ensures exists p :: Lightest(E, p)
  {
    var p :| p in E;
    if E == {p} {
      assert Lightest(E, p);
    } else {
      LightestExists(E - {p});
      var q :| Lightest(E - {p}, q);
      if Lighter(p, q) {
        forall r | r in E ensures !Lighter(r, p) {
          if Lighter(r, p) {
            LighterTransitive(r, p, q);
          }
        }
        assert Lightest(E, p);
      } else {
        assert Lightest(E, q);
      }
    }
  }

  /** The candidates that can still be linked once `p` is. */
  ghost function Compatible(E: set<Pair>, p: Pair): set<Pair> {
    set q | q in E && q.0 != p.0 && q.1 != p.1
  }

  /** Link a lightest candidate, drop those it excludes, and start again. */
  ghost function Greedy(E: set<Pair>): map<Sample, Sample>
    decreases |E|
  {
    if E == {} then map[]
    else
      LightestExists(E);
      var p :| Lightest(E, p);
      SubsetSize(Compatible(E, p), E);
      Greedy(Compatible(E, p))[p.0 := p.1]
  }

  /** A lightest candidate can be added to any stable linking of the candidates compatible with it. */
  lemma AddLightest(E: set<Pair>, p: Pair, m: map<Sample, Sample>)
    requires Lightest(E, p) && Stable(Compatible(E, p), m)
    ensures Stable(E, m[p.0 := p.1])
  {
    var E', m' := Compatible(E, p), m[p.0 := p.1];
    assert forall a :: a in m ==> (a, m[a]) in E';
    forall q | q in E ensures !Blocking(m', q) {
      PreferredIsLighter(q.0, q.1, p.1);
      PreferredIsLighter(q.0, q.1, p.0);
      if q.0 != p.0 && q.1 != p.1 {
        assert q in E' && !Blocking(m, q);
        if q.0 in m && !PrefersNext(q.0, q.1, m[q.0]) {
        } else {
          var a: Sample :| a in m && m[a] == q.1 && !PrefersPrev(q.1, q.0, a);
          assert m'[a] == q.1;
        }
      } else if q.0 != p.0 {
        assert m'[p.0] == q.1;
      }
    }
  }

  lemma {:induction false} GreedyIsStable(E: set<Pair>)
    ensures Stable(E, Greedy(E))
    decreases |E|
  {
    if E != {} {
      LightestExists(E);
      var p :| Lightest(E, p) && Greedy(E) == Greedy(Compatible(E, p))[p.0 := p.1];
      SubsetSize(Compatible(E, p), E);
      GreedyIsStable(Compatible(E, p));
      AddLightest(E, p, Greedy(Compatible(E, p)));
    }
  }

  /** Without ties, every stable linking is the greedy one. */
  lemma StableIsGreedy(E: set<Pair>, m: map<Sample, Sample>)
    requires Stable(E, m) && TieFree(E)
    ensures m == Greedy(E)
  {
    GreedyIsStable(E);
    StableIsUnique(E, m, Greedy(E));
  }
}
