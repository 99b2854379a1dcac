// A measure that every new link raises: why the mutual recursion of cross-identification ends.

module Potential {
  import opened Samples
  import opened Linking

  function Pow3(k: nat): (p: nat)
    ensures p >= 1
  {
    if k == 0 then 1 else 3 * Pow3(k - 1)
  }

  lemma {:induction false} Pow3Grows(j: nat, k: nat)
    requires j < k
    ensures 3 * Pow3(j) <= Pow3(k)
  {
    if j < k - 1 {
      Pow3Grows(j, k - 1);
    }
  }

  ghost function HeavierThan(E: set<Pair>, p: Pair): set<Pair> {
    set q | q in E && Lighter(p, q)
  }

  /** A link counts the more, the more candidates are heavier than it. */
  ghost function Weight(E: set<Pair>, p: Pair): (w: nat)
    ensures w >= 1
  {
    Pow3(|HeavierThan(E, p)|)
  }

  lemma LighterWeighsMore(E: set<Pair>, p: Pair, q: Pair)
    requires q in E && Lighter(p, q)
    ensures 3 * Weight(E, q) <= Weight(E, p)
  {
    var A, B := HeavierThan(E, q), HeavierThan(E, p);
    forall r | r in A ensures r in B {
      LighterTransitive(p, q, r);
    }
    assert q in B && q !in A;
    SubsetSize(A, B);
    Pow3Grows(|A|, |B|);
  }

  lemma WeightBound(E: set<Pair>, p: Pair)
    ensures Weight(E, p) <= Pow3(|E|)
  {
    var A := HeavierThan(E, p);
    if A < E {
      SubsetSize(A, E);
      Pow3Grows(|A|, |E|);
    } else {
      assert A == E;
    }
  }

  /** The total weight of a linking. */
  ghost function Total(E: set<Pair>, m: map<Sample, Sample>): nat
    decreases |m|
  {
    if m == map[] then 0
    else
      var a :| a in m;
      Smaller(m, a);
      Weight(E, (a, m[a])) + Total(E, m - {a})
  }

  lemma Smaller(m: map<Sample, Sample>, a: Sample)
    requires a in m
    ensures |m - {a}| == |m| - 1
  {
    assert m.Keys == (m - {a}).Keys + {a};
    assert |m| == |m.Keys| && |m - {a}| == |(m - {a}).Keys|;
  }

  lemma {:induction false} TotalWithout(E: set<Pair>, m: map<Sample, Sample>, a: Sample)
    requires a in m
    ensures Total(E, m) == Weight(E, (a, m[a])) + Total(E, m - {a})
    decreases |m|
  {
    hide Weight;
    var c :| c in m && Total(E, m) == Weight(E, (c, m[c])) + Total(E, m - {c});
    if c != a {
      Smaller(m, c);
      TotalWithout(E, m - {c}, a);
      Smaller(m, a);
      TotalWithout(E, m - {a}, c);
      assert m - {c} - {a} == m - {a} - {c};
    }
  }

  lemma {:induction false} TotalBound(E: set<Pair>, m: map<Sample, Sample>)
    ensures Total(E, m) <= |m| * Pow3(|E|)
    decreases |m|
  {
    hide Weight;
    if m != map[] {
      var a :| a in m;
      Smaller(m, a);
      TotalWithout(E, m, a);
      TotalBound(E, m - {a});
      WeightBound(E, (a, m[a]));
      var k := Pow3(|E|);
      assert |m| * k == (|m| - 1) * k + k;
    }
  }

  // ---- Relinking ----

  /** `a` linked to `b`, and every old link of either dropped. */
  ghost function Relinked(m: map<Sample, Sample>, a: Sample, b: Sample): map<Sample, Sample> {
    Dropped(m, a, b)[a := b]
  }

  ghost function Dropped(m: map<Sample, Sample>, a: Sample, b: Sample): map<Sample, Sample> {
    map c | c in m && c != a && m[c] != b :: m[c]
  }

  /** What dropping those at most two links costs is less than half of what the new link brings. */
  lemma DroppedWeight(E: set<Pair>, m: map<Sample, Sample>, a: Sample, b: Sample)
    requires Injective(m) && (forall c :: c in m ==> (c, m[c]) in E)
    requires Blocking(m, (a, b))
    ensures Total(E, m) < Total(E, Dropped(m, a, b)) + Weight(E, (a, b))
  {
    hide Weight, Total, PrefersNext, PrefersPrev, Lighter;
    var m1, m2 := m - {a}, Dropped(m, a, b);
    if a in m {
      TotalWithout(E, m, a);
      PreferredIsLighter(a, b, m[a]);
      LighterWeighsMore(E, (a, b), (a, m[a]));
    } else {
      assert m1 == m;
    }
    if c :| c in m1 && m[c] == b {
      TotalWithout(E, m1, c);
      PreferredIsLighter(a, b, c);
      LighterWeighsMore(E, (a, b), (c, b));
      assert m1 - {c} == m2;
    } else {
      assert m1 == m2;
    }
  }

  /** Every relinking raises the total weight. */
  lemma RelinkedWeighsMore(E: set<Pair>, m: map<Sample, Sample>, a: Sample, b: Sample)
    requires Injective(m) && (forall c :: c in m ==> (c, m[c]) in E)
    requires Blocking(m, (a, b))
    ensures Total(E, Relinked(m, a, b)) > Total(E, m)
  {
    hide Weight, Total;
    DroppedWeight(E, m, a, b);
    var m' := Relinked(m, a, b);
    TotalWithout(E, m', a);
    assert m' - {a} == Dropped(m, a, b);
  }
}
