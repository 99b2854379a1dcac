// Trimming unconstrained coefficient blocks of the normal equations
// (the two passes of astrsolve_fgroups, scamp/src/astrsolve.c).

module Trimming {
  import opened Basics
  import opened ShrinkMat

  // ---- Tilings ----

  /** Where block `b` starts. */
  function Sum(lens: seq<nat>, b: nat): nat
    requires b <= |lens|
  {
    if b == 0 then 0 else Sum(lens, b - 1) + lens[b - 1]
  }

  lemma {:induction false} SumGrows(lens: seq<nat>, b: nat, b': nat)
    requires b <= b' <= |lens|
    ensures Sum(lens, b) <= Sum(lens, b') && (b < b' ==> Sum(lens, b) + lens[b] <= Sum(lens, b'))
    decreases b'
  {
    if b < b' {
      SumGrows(lens, b, b' - 1);
    }
  }

  lemma {:induction false} SumBelow(lens: seq<nat>, more: seq<nat>, b: nat)
    requires b <= |lens| == |more| && forall j :: 0 <= j < |lens| ==> lens[j] <= more[j]
    ensures Sum(lens, b) <= Sum(more, b)
  {
    if b > 0 {
      SumBelow(lens, more, b - 1);
    }
  }

  /** Shortening a block moves those after it. */
  lemma {:induction false} SumShortened(lens: seq<nat>, b: nat, c: nat, j: nat)
    requires b < |lens| && c <= lens[b] && j <= |lens|
    ensures Sum(lens[b := c], j) == Sum(lens, j) - if j > b then lens[b] - c else 0
  {
    if j > 0 {
      SumShortened(lens, b, c, j - 1);
    }
    if j > b {
      SumGrows(lens, b, j);
    }
  }

  /** The block and the place in it of a coefficient. */
  lemma {:induction false} BlockOf(lens: seq<nat>, x: nat, b: nat) returns (j: nat, i: nat)
    requires b <= |lens| && x < Sum(lens, b)
    ensures j < b && i < lens[j] && x == Sum(lens, j) + i
  {
    if x >= Sum(lens, b - 1) {
      j, i := b - 1, x - Sum(lens, b - 1);
    } else {
      j, i := BlockOf(lens, x, b - 1);
    }
  }

  // ---- What survives ----

  /** The number that coefficient `i` of block `b` had when the blocks had lengths `len0`: set blocks, which are
      those below `nset`, keep their first coefficients, field blocks their last. */
  function Original(len0: seq<nat>, lens: seq<nat>, nset: nat, b: nat, i: nat): nat
    requires b < |len0| == |lens| && lens[b] <= len0[b]
  {
    Sum(len0, b) + i + if b < nset then 0 else len0[b] - lens[b]
  }

  ghost predicate Shorter(lens: seq<nat>, len0: seq<nat>) {
    |lens| == |len0| && forall b :: 0 <= b < |lens| ==> lens[b] <= len0[b]
  }

  ghost predicate SurvivesAt(kept: seq<nat>, len0: seq<nat>, lens: seq<nat>, nset: nat, b: nat, i: nat)
    requires b < |len0| == |lens| && lens[b] <= len0[b]
  {
    Sum(lens, b) + i < |kept| && kept[Sum(lens, b) + i] == Original(len0, lens, nset, b, i)
  }

  /** `kept` lists the original numbers of the coefficients that are left. */
  ghost predicate Surviving(kept: seq<nat>, len0: seq<nat>, lens: seq<nat>, nset: nat) {
    && Shorter(lens, len0) && |kept| == Sum(lens, |lens|)
    && forall b, i :: 0 <= b < |lens| && 0 <= i < lens[b] ==> SurvivesAt(kept, len0, lens, nset, b, i)
  }

  function Cut(kept: seq<nat>, p: nat, nmiss: nat): seq<nat>
    requires p + nmiss <= |kept|
  {
    kept[..p] + kept[p + nmiss..]
  }

  /** Where the cut is made to leave `c` coefficients of block `b`. */
  function CutPlace(lens: seq<nat>, nset: nat, b: nat, c: nat): nat
    requires b < |lens|
  {
    Sum(lens, b) + if b < nset then c else 0
  }

  lemma CutInside(lens: seq<nat>, nset: nat, b: nat, c: nat)
    requires b < |lens| && c <= lens[b]
    ensures CutPlace(lens, nset, b, c) + lens[b] - c <= Sum(lens, b) + lens[b] <= Sum(lens, |lens|)
    ensures Sum(lens[b := c], |lens|) == Sum(lens, |lens|) - (lens[b] - c)
  {
    SumGrows(lens, b, |lens|);
    SumShortened(lens, b, c, |lens|);
  }

  /** A coefficient that is left was at `Before` its place. */
  lemma CutMoves(lens: seq<nat>, nset: nat, b: nat, c: nat, j: nat, i: nat)
    requires b < |lens| && c <= lens[b] && j < |lens| && i < lens[b := c][j]
    ensures Sum(lens[b := c], j) + i < Sum(lens[b := c], |lens|)
    ensures Before(Sum(lens[b := c], j) + i, CutPlace(lens, nset, b, c), lens[b] - c)
      == Sum(lens, j) + i + if j == b && b >= nset then lens[b] - c else 0
  {
    hide Sum;
    var lens' := lens[b := c];
    SumGrows(lens', j, |lens|);
    SumShortened(lens, b, c, j);
    if j < b {
      SumGrows(lens, j, b);
    } else if j > b {
      SumGrows(lens, b, j);
    }
  }

  lemma SurvivingCut(kept: seq<nat>, len0: seq<nat>, lens: seq<nat>, nset: nat, b: nat, c: nat)
    requires Surviving(kept, len0, lens, nset) && b < |lens| && c <= lens[b]
    requires CutPlace(lens, nset, b, c) + lens[b] - c <= |kept|
    ensures Surviving(Cut(kept, CutPlace(lens, nset, b, c), lens[b] - c), len0, lens[b := c], nset)
  {
    hide Sum, CutPlace;
    var p, nmiss, lens' := CutPlace(lens, nset, b, c), lens[b] - c, lens[b := c];
    var kept' := Cut(kept, p, nmiss);
    CutInside(lens, nset, b, c);
    forall j, i | 0 <= j < |lens| && 0 <= i < lens'[j]
      ensures SurvivesAt(kept', len0, lens', nset, j, i)
    {
      CutMoves(lens, nset, b, c, j, i);
      var i0 := i + if j == b && b >= nset then nmiss else 0;
      assert SurvivesAt(kept, len0, lens, nset, j, i0);
      assert Original(len0, lens, nset, j, i0) == Original(len0, lens', nset, j, i);
    }
  }

  /** `now` is the matrix of the kept coefficients. */
  ghost predicate Submatrix(now: seq<real>, n: nat, was: seq<real>, n0: nat, kept: seq<nat>) {
    && |kept| == n && Start(n, n) <= |now| && Start(n0, n0) <= |was| && (forall r :: 0 <= r < n ==> kept[r] < n0)
    && forall r, c :: 0 <= r < n && 0 <= c < n ==> Entry(now, n, r, c) == Entry(was, n0, kept[r], kept[c])
  }

  lemma SubmatrixCut(now: seq<real>, now': seq<real>, n: nat, was: seq<real>, n0: nat, kept: seq<nat>, p: nat,
      nmiss: nat)
    requires Submatrix(now, n, was, n0, kept) && Deleted(now, now', n, p, nmiss)
    ensures Submatrix(now', n - nmiss, was, n0, Cut(kept, p, nmiss))
  {
    hide Start, Entry;
    var kept' := Cut(kept, p, nmiss);
    forall r | 0 <= r < n - nmiss ensures kept'[r] == kept[Before(r, p, nmiss)] {
    }
  }

  ghost predicate Subvector(now: seq<real>, n: nat, was: seq<real>, kept: seq<nat>) {
    |kept| == n <= |now| && forall r :: 0 <= r < n ==> kept[r] < |was| && now[r] == was[kept[r]]
  }

  lemma SubvectorCut(now: seq<real>, now': seq<real>, n: nat, was: seq<real>, kept: seq<nat>, p: nat, nmiss: nat)
    requires Subvector(now, n, was, kept) && p + nmiss <= n && n - nmiss <= |now'|
    requires now'[..n - nmiss] == now[..p] + now[p + nmiss..n]
    ensures Subvector(now', n - nmiss, was, Cut(kept, p, nmiss))
  {
    forall r | 0 <= r < n - nmiss ensures now'[r] == now[Before(r, p, nmiss)] {
      assert now'[r] == now'[..n - nmiss][r];
    }
  }

  /** The number of constraints of every block that is not empty is at its start. */
  ghost predicate Counted(nconst: seq<int>, lens: seq<nat>, counts: seq<nat>) {
    && |lens| == |counts| && Sum(lens, |lens|) <= |nconst| && (forall x :: 0 <= x < |nconst| ==> nconst[x] >= 0)
    && forall b :: 0 <= b < |lens| && lens[b] > 0 ==> CountAt(nconst, lens, counts, b)
  }

  ghost predicate CountAt(nconst: seq<int>, lens: seq<nat>, counts: seq<nat>, b: nat)
    requires b < |lens| == |counts|
  {
    Sum(lens, b) < |nconst| && nconst[Sum(lens, b)] == counts[b]
  }

  /** The counts move with their blocks. */
  lemma CountedCut(nconst: seq<int>, nconst': seq<int>, lens: seq<nat>, counts: seq<nat>, b: nat, q: nat, nmiss: nat,
      rest: nat)
    requires Counted(nconst, lens, counts) && b < |lens| && counts[b] < lens[b]
    requires q == Sum(lens, b) + counts[b] && nmiss == lens[b] - counts[b]
      && rest == Sum(lens, |lens|) - Sum(lens, b) - lens[b]
    requires |nconst'| == |nconst| && q + nmiss + rest <= |nconst|
    requires nconst'[..q + rest] == nconst[..q] + nconst[q + nmiss..q + nmiss + rest]
    requires forall x :: q + rest <= x < |nconst| ==> nconst'[x] == nconst[x]
    ensures Counted(nconst', lens[b := counts[b]], counts)
  {
    hide Sum;
    var lens' := lens[b := counts[b]];
    SumShortened(lens, b, counts[b], |lens|);
    forall x | 0 <= x < q + rest ensures nconst'[x] == nconst[if x < q then x else x + nmiss] {
      assert nconst'[x] == nconst'[..q + rest][x];
    }
    forall j | 0 <= j < |lens| && lens'[j] > 0 ensures CountAt(nconst', lens', counts, j) {
      CountMoves(lens, counts, b, j);
      assert CountAt(nconst, lens, counts, j);
    }
  }

  lemma CountMoves(lens: seq<nat>, counts: seq<nat>, b: nat, j: nat)
    requires |lens| == |counts| && b < |lens| && counts[b] < lens[b] && j < |lens| && lens[b := counts[b]][j] > 0
    ensures var x, q, nmiss := Sum(lens[b := counts[b]], j), Sum(lens, b) + counts[b], lens[b] - counts[b];
      && x < q + (Sum(lens, |lens|) - Sum(lens, b) - lens[b])
      && Sum(lens, j) == if x < q then x else x + nmiss
  {
    hide Sum;
    SumShortened(lens, b, counts[b], j);
    SumGrows(lens, b, |lens|);
    SumGrows(lens, j, |lens|);
    if j < b {
      SumGrows(lens, j, b);
    } else if j > b {
      SumGrows(lens, b, j);
    }
  }

  // ---- The numbers of a run ----

  /** What a run starts from: lengths and counts of the blocks, how many of them are set blocks, the matrix and the
      vector. */
  datatype Start0 = Start0(len0: seq<nat>, counts: seq<nat>, nset: nat, alpha0: seq<real>, beta0: seq<real>)

  function Total(lens: seq<nat>): nat {
    Sum(lens, |lens|)
  }

  ghost predicate WellStarted(k: Start0) {
    |k.counts| == |k.len0| && k.nset <= |k.len0| && forall b :: 0 <= b < |k.len0| ==> k.len0[b] > 0
  }

  ghost predicate Numbers(k: Start0, lens: seq<nat>, kept: seq<nat>, alpha: seq<real>, beta: seq<real>,
      nconst: seq<int>, n: nat) {
    && WellStarted(k) && Surviving(kept, k.len0, lens, k.nset) && n == Total(lens) && Total(k.len0) <= |nconst|
    && Submatrix(alpha, n, k.alpha0, Total(k.len0), kept) && Subvector(beta, n, k.beta0, kept)
      && Counted(nconst, lens, k.counts)
  }

  /** The numbers before the first trimming. */
  lemma NumbersAtStart(k: Start0, nconst: seq<int>) returns (kept: seq<nat>)
    requires WellStarted(k) && Total(k.len0) <= |nconst| && Counted(nconst, k.len0, k.counts)
    requires Start(Total(k.len0), Total(k.len0)) <= |k.alpha0| && Total(k.len0) <= |k.beta0|
    ensures Numbers(k, k.len0, kept, k.alpha0, k.beta0, nconst, Total(k.len0))
  {
    var n := Total(k.len0);
    kept := seq(n, x => x);
    hide Start, Entry, Counted;
    forall b, i | 0 <= b < |k.len0| && 0 <= i < k.len0[b] ensures SurvivesAt(kept, k.len0, k.len0, k.nset, b, i) {
      SumGrows(k.len0, b, |k.len0|);
    }
  }

  lemma NumbersCut(k: Start0, lens: seq<nat>, kept: seq<nat>, b: nat, nmiss: nat, p: nat, q: nat, rest: nat, n: nat,
                   alpha: seq<real>, beta: seq<real>, nconst: seq<int>, alpha': seq<real>, beta': seq<real>,
                     nconst': seq<int>)
    requires Numbers(k, lens, kept, alpha, beta, nconst, n) && b < |lens| && k.counts[b] < lens[b]
      && nmiss == lens[b] - k.counts[b]
    requires p == CutPlace(lens, k.nset, b, k.counts[b]) && q == Sum(lens, b) + k.counts[b]
      && rest == n - Sum(lens, b) - lens[b]
    requires nmiss < n ==> Deleted(alpha, alpha', n, p, nmiss)
    requires nmiss < n ==>
      p + nmiss <= n <= |beta| && n - nmiss <= |beta'| && beta'[..n - nmiss] == beta[..p] + beta[p + nmiss..n]
    requires |nconst'| == |nconst| && q + nmiss + rest <= |nconst|
    requires nconst'[..q + rest] == nconst[..q] + nconst[q + nmiss..q + nmiss + rest]
    requires forall x :: q + rest <= x < |nconst| ==> nconst'[x] == nconst[x]
    ensures p + nmiss <= |kept| && nmiss <= n
    ensures Numbers(k, lens[b := k.counts[b]], Cut(kept, p, nmiss), alpha', beta', nconst', n - nmiss)
  {
    hide Sum, Start, Entry, Deleted, Surviving, Counted, CutPlace, Submatrix, Subvector;
    SurvivingSize(kept, k.len0, lens, k.nset);
    CutInside(lens, k.nset, b, k.counts[b]);
    SurvivingCut(kept, k.len0, lens, k.nset, b, k.counts[b]);
    CountedCut(nconst, nconst', lens, k.counts, b, q, nmiss, rest);
    if nmiss < n {
      SubmatrixCut(alpha, alpha', n, k.alpha0, Total(k.len0), kept, p, nmiss);
      SubvectorCut(beta, beta', n, k.beta0, kept, p, nmiss);
    } else {
      NothingLeft(alpha, alpha', beta', n, k.alpha0, Total(k.len0), k.beta0, kept, Cut(kept, p, nmiss));
    }
  }

  lemma SurvivingSize(kept: seq<nat>, len0: seq<nat>, lens: seq<nat>, nset: nat)
    requires Surviving(kept, len0, lens, nset)
    ensures |kept| == Sum(lens, |lens|) && Shorter(lens, len0)
  {
  }

  lemma NothingLeft(alpha: seq<real>, alpha': seq<real>, beta': seq<real>, n: nat, was: seq<real>, n0: nat,
      beta0: seq<real>,
                    kept: seq<nat>, kept': seq<nat>)
    requires Submatrix(alpha, n, was, n0, kept) && kept' == []
    ensures Submatrix(alpha', 0, was, n0, kept') && Subvector(beta', 0, beta0, kept')
  {
  }

  // ---- Sets and fields ----

  class SetStruct {
    var index: int
    var index2: int
    var ncoeff: int

    constructor (index: int, index2: int, ncoeff: int)
      ensures this.index == index && this.index2 == index2 && this.ncoeff == ncoeff
    {
      this.index, this.index2, this.ncoeff := index, index2, ncoeff;
    }
  }

  class FieldStruct {
    const set_: seq<SetStruct>
    const index: int
    var index2: int
    var ncoeff2: int

    constructor (set_: seq<SetStruct>, index: int, index2: int, ncoeff2: int)
      ensures this.set_ == set_ && this.index == index && this.index2 == index2 && this.ncoeff2 == ncoeff2
    {
      this.set_, this.index, this.index2, this.ncoeff2 := set_, index, index2, ncoeff2;
    }
  }

  ghost function Objects(fields: seq<FieldStruct>): set<object> {
    (set f | f in fields) + (set f, s | f in fields && s in f.set_ :: s)
  }

  /** No field or set is listed twice. */
  ghost predicate Owned(fields: seq<FieldStruct>) {
    && (forall i, j :: 0 <= i < j < |fields| ==> fields[i] != fields[j])
    && (forall i, j, s :: 0 <= i < j < |fields| && s in fields[i].set_ ==> s !in fields[j].set_)
    && (forall f :: f in fields ==> forall a, b :: 0 <= a < b < |f.set_| ==> f.set_[a] != f.set_[b])
  }

  /** Which block every set and field refers to; sets of fields with a negative index and some fields refer to none. */
  datatype Places = Places(sb: map<SetStruct, nat>, fb: map<FieldStruct, nat>)

  ghost predicate SetLaid(s: SetStruct, f: FieldStruct, pl: Places, lens: seq<nat>, nset: nat)
    reads s, f
  {
    && s.index2 == f.index2 && (s in pl.sb <==> f.index >= 0)
    && (if s in pl.sb then pl.sb[s] < nset <= |lens| && s.index == Sum(lens, pl.sb[s])
      && s.ncoeff == lens[pl.sb[s]] else s.index == -1)
  }

  ghost predicate FieldLaid(f: FieldStruct, pl: Places, lens: seq<nat>, nset: nat)
    reads f
  {
    if f in pl.fb then nset <= pl.fb[f] < |lens| && f.index2 == Sum(lens, pl.fb[f]) && f.ncoeff2 == lens[pl.fb[f]]
    else f.index2 == -1
  }

  /** All stored numbers agree with the tiling. */
  ghost predicate Laid(fields: seq<FieldStruct>, pl: Places, lens: seq<nat>, nset: nat)
    reads Objects(fields)
  {
    && nset <= |lens|
    && forall f :: f in fields ==> FieldLaid(f, pl, lens, nset) && forall s :: s in f.set_ ==>
      SetLaid(s, f, pl, lens, nset)
  }

  /** How starts and lengths change when block `b` is shortened. */
  lemma StartShift(lens: seq<nat>, b: nat, c: nat, j: nat)
    requires b < |lens| && c < lens[b] && j < |lens|
    ensures Sum(lens, j) > Sum(lens, b) <==> j > b
    ensures lens[j] != 0 && Sum(lens, j) == Sum(lens, b) <==> j == b
    ensures Sum(lens[b := c], j) == Sum(lens, j) - if j > b then lens[b] - c else 0
  {
    SumShortened(lens, b, c, j);
    if j < b {
      SumGrows(lens, j, b);
    } else if j > b {
      SumGrows(lens, b, j);
    }
  }

  // ---- Renumbering in the first pass ----

  twostate predicate SetRenumbered(s: SetStruct, index: int, nmiss: int)
    reads s
  {
    && s.ncoeff == old(s.ncoeff) - (if old(s.ncoeff) != 0 && old(s.index) == index then nmiss else 0)
    && s.index == old(s.index) - (if old(s.index) > index then nmiss else 0)
    && s.index2 == old(s.index2) - (if old(s.index2) >= 0 then nmiss else 0)
  }

  twostate predicate FieldRenumbered(f: FieldStruct, nmiss: int)
    reads f
  {
    f.index2 == old(f.index2) - (if old(f.index2) >= 0 then nmiss else 0) && f.ncoeff2 == old(f.ncoeff2)
  }

  twostate predicate AllRenumbered(fields: seq<FieldStruct>, index: int, nmiss: int)
    reads Objects(fields)
  {
    forall f :: f in fields ==> FieldRenumbered(f, nmiss) && forall s :: s in f.set_ ==> SetRenumbered(s, index, nmiss)
  }

  method RenumberField(field2: FieldStruct, index: int, nmiss: int)
    requires forall a, b :: 0 <= a < b < |field2.set_| ==> field2.set_[a] != field2.set_[b]
    modifies field2, set s | s in field2.set_
    ensures FieldRenumbered(field2, nmiss) && forall s :: s in field2.set_ ==> SetRenumbered(s, index, nmiss)
  {
    if field2.index2 >= 0 {
      field2.index2 := field2.index2 - nmiss;
    }
    for s2 := 0 to |field2.set_|
      invariant FieldRenumbered(field2, nmiss)
      invariant forall a :: 0 <= a < s2 ==> SetRenumbered(field2.set_[a], index, nmiss)
      invariant forall a :: s2 <= a < |field2.set_| ==> unchanged(field2.set_[a])
    {
      var set2 := field2.set_[s2];
      if set2.ncoeff != 0 && set2.index == index {
        set2.ncoeff := set2.ncoeff - nmiss;
      }
      if set2.index > index {
        set2.index := set2.index - nmiss;
      }
      if set2.index2 >= 0 {
        set2.index2 := set2.index2 - nmiss;
      }
    }
  }

  method RenumberAll(fields: seq<FieldStruct>, index: int, nmiss: int)
    requires Owned(fields)
    modifies Objects(fields)
    ensures AllRenumbered(fields, index, nmiss)
  {
    for f2 := 0 to |fields|
      invariant forall i :: 0 <= i < f2 ==> FieldRenumbered(fields[i], nmiss)
      invariant forall i, s :: 0 <= i < f2 && s in fields[i].set_ ==> SetRenumbered(s, index, nmiss)
      invariant forall i :: f2 <= i < |fields| ==> unchanged(fields[i])
      invariant forall i, s :: f2 <= i < |fields| && s in fields[i].set_ ==> unchanged(s)
    {
      RenumberField(fields[f2], index, nmiss);
    }
  }

  /** The renumbering keeps all stored numbers in agreement with the tiling. */
  method Renumber(fields: seq<FieldStruct>, index: int, nmiss: int, ghost pl: Places, ghost lens: seq<nat>,
      ghost nset: nat, ghost b: nat, ghost c: nat)
    requires Owned(fields) && Laid(fields, pl, lens, nset) && b < nset && c < lens[b] && index == Sum(lens, b)
      && nmiss == lens[b] - c
    modifies Objects(fields)
    ensures Laid(fields, pl, lens[b := c], nset)
  {
    hide Owned, Sum;
    RenumberAll(fields, index, nmiss);
    var lens' := lens[b := c];
    forall f | f in fields ensures FieldLaid(f, pl, lens', nset) && forall s :: s in f.set_ ==>
      SetLaid(s, f, pl, lens', nset) {
      assert old(FieldLaid(f, pl, lens, nset));
      if f in pl.fb {
        StartShift(lens, b, c, pl.fb[f]);
      }
      forall s | s in f.set_ ensures SetLaid(s, f, pl, lens', nset) {
        assert old(SetLaid(s, f, pl, lens, nset));
        assert SetRenumbered(s, Sum(lens, b), lens[b] - c);
        if s in pl.sb {
          StartShift(lens, b, c, pl.sb[s]);
        }
      }
    }
  }

  // ---- Cutting a block ----

  /** The calls of shrink_mat and the shift of the counts, for a block that starts at `index`; the matrix is cut at
      `p`. */
  method CutBlock(alpha: array<real>, beta: array<real>, nconst: array<int>, ncoefftot: nat, index: nat, p: nat,
      ncoeff: nat, nmiss: nat,
                  ghost k: Start0, ghost lens: seq<nat>, ghost kept: seq<nat>, ghost b: nat)
                    returns (ghost kept': seq<nat>)
    requires Numbers(k, lens, kept, alpha[..], beta[..], nconst[..], ncoefftot) && alpha != beta
    requires b < |lens| == |k.counts| && k.counts[b] < lens[b] && index == Sum(lens, b) && ncoeff == lens[b]
    requires p == CutPlace(lens, k.nset, b, k.counts[b]) && nmiss == lens[b] - k.counts[b]
    modifies alpha, beta, nconst
    ensures nmiss <= ncoefftot
      && Numbers(k, lens[b := k.counts[b]], kept', alpha[..], beta[..], nconst[..], ncoefftot - nmiss)
  {
    hide Sum, Start, Surviving, CutPlace, Submatrix, Subvector, Deleted;
    ghost var a0, b0, c0 := alpha[..], beta[..], nconst[..];
    CutFits(k, lens, kept, a0, b0, c0, ncoefftot, b);
    ShrinkPacked(alpha, beta, ncoefftot, p, nmiss);
    if nmiss < ncoefftot {
      DeletedWhole(a0, alpha[..], ncoefftot, p, nmiss);
    }
    var nc := index + nconst[index];
    var rest := ncoefftot - index - ncoeff;
    var _, _ := CopyDown(nconst, nc, nc + nmiss, rest);
    kept' := Cut(kept, p, nmiss);
    NumbersCut(k, lens, kept, b, nmiss, p, nc, rest, ncoefftot, a0, b0, c0, alpha[..], beta[..], nconst[..]);
  }

  lemma CutFits(k: Start0, lens: seq<nat>, kept: seq<nat>, alpha: seq<real>, beta: seq<real>, nconst: seq<int>, n: nat,
      b: nat)
    requires Numbers(k, lens, kept, alpha, beta, nconst, n) && b < |lens| && k.counts[b] < lens[b]
    ensures |lens| == |k.counts| && 0 <= Start(n, n) <= |alpha| && n <= |beta| && n <= |nconst|
    ensures Sum(lens, b) + lens[b] <= n && nconst[Sum(lens, b)] == k.counts[b]
    ensures CutPlace(lens, k.nset, b, k.counts[b]) + lens[b] - k.counts[b] <= |kept| == n
  {
    CutInside(lens, k.nset, b, k.counts[b]);
    SumGrows(lens, b, |lens|);
    StartStep(n, 0);
    StartGrows(n, 0, n);
    assert CountAt(nconst, lens, k.counts, b);
  }

  /** The unused memory behind a matrix does not matter. */
  lemma DeletedWhole(s: seq<real>, s': seq<real>, n: nat, index: nat, nmiss: nat)
    requires 0 <= Start(n, n) <= |s| && nmiss <= n && 0 <= Start(n - nmiss, n - nmiss) <= |s'|
    requires Deleted(s[..Start(n, n)], s'[..Start(n - nmiss, n - nmiss)], n, index, nmiss)
    ensures Deleted(s, s', n, index, nmiss)
  {
    var m := n - nmiss;
    forall r, c | 0 <= r < m && 0 <= c < m
      ensures Entry(s', m, r, c) == Entry(s, n, Before(r, index, nmiss), Before(c, index, nmiss))
    {
      EntryPrefix(s', m, r, c);
      EntryPrefix(s, n, Before(r, index, nmiss), Before(c, index, nmiss));
    }
  }

  lemma EntryPrefix(s: seq<real>, n: nat, r: nat, c: nat)
    requires r < n && c < n && 0 <= Start(n, n) <= |s|
    ensures Entry(s, n, r, c) == Entry(s[..Start(n, n)], n, r, c)
  {
    PackedInside(n, if r <= c then r else c, if r <= c then c else r);
  }

  // ---- Renumbering in the second pass ----

  twostate predicate FieldRenumbered2(f: FieldStruct, index2: int, nmiss: int)
    reads f
  {
    && f.ncoeff2 == old(f.ncoeff2) - (if old(f.ncoeff2) != 0 && old(f.index2) == index2 then nmiss else 0)
    && f.index2 == old(f.index2) - (if old(f.index2) >= 0 && old(f.index2) > index2 then nmiss else 0)
  }

  twostate predicate SetRenumbered2(s: SetStruct, f: FieldStruct, index2: int, nmiss: int)
    reads s
  {
    && s.ncoeff == old(s.ncoeff) && s.index == old(s.index)
    && s.index2 == old(s.index2) - (if old(f.index2) >= 0 && old(f.index2) > index2
      && old(s.index2) > index2 then nmiss else 0)
  }

  twostate predicate AllRenumbered2(fields: seq<FieldStruct>, index2: int, nmiss: int)
    reads Objects(fields)
  {
    forall f :: f in fields ==> FieldRenumbered2(f, index2, nmiss) && forall s :: s in f.set_ ==>
      SetRenumbered2(s, f, index2, nmiss)
  }

  method RenumberField2(field2: FieldStruct, index2: int, nmiss: int)
    requires forall a, b :: 0 <= a < b < |field2.set_| ==> field2.set_[a] != field2.set_[b]
    modifies field2, set s | s in field2.set_
    ensures FieldRenumbered2(field2, index2, nmiss)
    ensures forall s :: s in field2.set_ ==> SetRenumbered2(s, field2, index2, nmiss)
  {
    if field2.ncoeff2 != 0 && field2.index2 == index2 {
      field2.ncoeff2 := field2.ncoeff2 - nmiss;
    }
    if field2.index2 >= 0 && field2.index2 > index2 {
      field2.index2 := field2.index2 - nmiss;
      for s2 := 0 to |field2.set_|
        invariant FieldRenumbered2(field2, index2, nmiss)
        invariant forall a :: 0 <= a < s2 ==> SetRenumbered2(field2.set_[a], field2, index2, nmiss)
        invariant forall a :: s2 <= a < |field2.set_| ==> unchanged(field2.set_[a])
      {
        var set2 := field2.set_[s2];
        if set2.index2 > index2 {
          set2.index2 := set2.index2 - nmiss;
        }
      }
    }
  }

  method RenumberAll2(fields: seq<FieldStruct>, index2: int, nmiss: int)
    requires Owned(fields)
    modifies Objects(fields)
    ensures AllRenumbered2(fields, index2, nmiss)
  {
    for f2 := 0 to |fields|
      invariant forall i :: 0 <= i < f2 ==> FieldRenumbered2(fields[i], index2, nmiss)
      invariant forall i, s :: 0 <= i < f2 && s in fields[i].set_ ==> SetRenumbered2(s, fields[i], index2, nmiss)
      invariant forall i :: f2 <= i < |fields| ==> unchanged(fields[i])
      invariant forall i, s :: f2 <= i < |fields| && s in fields[i].set_ ==> unchanged(s)
    {
      RenumberField2(fields[f2], index2, nmiss);
    }
  }

  /** The renumbering of the second pass does so too. */
  method Renumber2(fields: seq<FieldStruct>, index2: int, nmiss: int, ghost pl: Places, ghost lens: seq<nat>,
      ghost nset: nat, ghost b: nat, ghost c: nat)
    requires Owned(fields) && Laid(fields, pl, lens, nset) && nset <= b < |lens| && c < lens[b]
      && index2 == Sum(lens, b) && nmiss == lens[b] - c
    modifies Objects(fields)
    ensures Laid(fields, pl, lens[b := c], nset)
  {
    hide Owned, Sum;
    RenumberAll2(fields, index2, nmiss);
    var lens' := lens[b := c];
    forall f | f in fields ensures FieldLaid(f, pl, lens', nset) && forall s :: s in f.set_ ==>
      SetLaid(s, f, pl, lens', nset) {
      assert old(FieldLaid(f, pl, lens, nset));
      if f in pl.fb {
        StartShift(lens, b, c, pl.fb[f]);
      }
      forall s | s in f.set_ ensures SetLaid(s, f, pl, lens', nset) {
        assert old(SetLaid(s, f, pl, lens, nset));
        assert SetRenumbered2(s, f, Sum(lens, b), lens[b] - c);
        if s in pl.sb {
          StartShift(lens, b, c, pl.sb[s]);
        }
      }
    }
  }

  // ---- The passes ----

  /** Every block has its old length or is trimmed to its count. */
  ghost predicate Partly(k: Start0, lens: seq<nat>) {
    WellStarted(k) && |lens| == |k.len0| && forall b :: 0 <= b < |lens| ==> lens[b] == k.len0[b] || Trimmed(k, lens, b)
  }

  ghost predicate Trimmed(k: Start0, lens: seq<nat>, b: nat)
    requires WellStarted(k) && b < |lens| == |k.len0|
  {
    lens[b] == Min(k.len0[b], k.counts[b])
  }

  /** All of the state between two steps of a pass. */
  ghost predicate Consistent(fields: seq<FieldStruct>, pl: Places, k: Start0, lens: seq<nat>, kept: seq<nat>,
                             alpha: seq<real>, beta: seq<real>, nconst: seq<int>, n: nat)
    reads Objects(fields)
  {
    Laid(fields, pl, lens, k.nset) && Numbers(k, lens, kept, alpha, beta, nconst, n) && Partly(k, lens)
  }

  /** The count of any block may be read; that of an empty block is not negative. */
  lemma CountReadable(k: Start0, lens: seq<nat>, kept: seq<nat>, alpha: seq<real>, beta: seq<real>, nconst: seq<int>,
      n: nat, b: nat)
    requires Numbers(k, lens, kept, alpha, beta, nconst, n) && Partly(k, lens) && b < |lens|
    ensures |k.counts| == |lens| && Sum(lens, b) < |nconst| && 0 <= nconst[Sum(lens, b)]
    ensures lens[b] > 0 ==> nconst[Sum(lens, b)] == k.counts[b]
    ensures nconst[Sum(lens, b)] >= lens[b] ==> Trimmed(k, lens, b)
  {
    hide Submatrix, Subvector;
    SumBelow(lens, k.len0, b);
    SumGrows(k.len0, b, |k.len0|);
    if lens[b] > 0 {
      assert CountAt(nconst, lens, k.counts, b);
    }
  }

  /** The body of the first pass for one set. */
  method TrimSet(fields: seq<FieldStruct>, field: FieldStruct, set0: SetStruct, alpha: array<real>, beta: array<real>,
      nconst: array<int>,
                 ncoefftot: nat, ghost pl: Places, ghost k: Start0, ghost lens: seq<nat>, ghost kept: seq<nat>)
    returns (ncoefftot': nat, ghost lens': seq<nat>, ghost kept': seq<nat>)
    requires Consistent(fields, pl, k, lens, kept, alpha[..], beta[..], nconst[..], ncoefftot) && alpha != beta
      && Owned(fields)
    requires field in fields && set0 in field.set_ && field.index >= 0
    modifies Objects(fields), alpha, beta, nconst
    ensures Consistent(fields, pl, k, lens', kept', alpha[..], beta[..], nconst[..], ncoefftot')
    ensures set0 in pl.sb && pl.sb[set0] < k.nset <= |lens| == |k.counts|
    ensures lens' == lens[pl.sb[set0] := Min(lens[pl.sb[set0]], k.counts[pl.sb[set0]])]
      && Trimmed(k, lens', pl.sb[set0])
  {
    hide Numbers, Sum, Owned;
    ncoefftot', lens', kept' := ncoefftot, lens, kept;
    assert SetLaid(set0, field, pl, lens, k.nset);
    ghost var b := pl.sb[set0];
    CountReadable(k, lens, kept, alpha[..], beta[..], nconst[..], ncoefftot, b);
    var index := set0.index;
    if nconst[index] < set0.ncoeff {
      var nmiss := set0.ncoeff - nconst[index];
      kept' := CutBlock(alpha, beta, nconst, ncoefftot, index, index + nconst[index], set0.ncoeff, nmiss, k, lens, kept,
        b);
      lens' := lens[b := k.counts[b]];
      Renumber(fields, index, nmiss, pl, lens, k.nset, b, k.counts[b]);
      ncoefftot' := ncoefftot - nmiss;
    }
  }

  /** The body of the second pass for one field. */
  method TrimField(fields: seq<FieldStruct>, field: FieldStruct, alpha: array<real>, beta: array<real>,
      nconst: array<int>,
                   ncoefftot: nat, ghost pl: Places, ghost k: Start0, ghost lens: seq<nat>, ghost kept: seq<nat>)
    returns (ncoefftot': nat, ghost lens': seq<nat>, ghost kept': seq<nat>)
    requires Consistent(fields, pl, k, lens, kept, alpha[..], beta[..], nconst[..], ncoefftot) && alpha != beta
      && Owned(fields)
    requires field in fields
    modifies Objects(fields), alpha, beta, nconst
    ensures Consistent(fields, pl, k, lens', kept', alpha[..], beta[..], nconst[..], ncoefftot')
    ensures field in pl.fb ==> k.nset <= pl.fb[field] < |lens| == |k.counts|
    ensures field in pl.fb ==>
      lens' == lens[pl.fb[field] := Min(lens[pl.fb[field]], k.counts[pl.fb[field]])] && Trimmed(k, lens', pl.fb[field])
    ensures field !in pl.fb ==> lens' == lens
  {
    hide Numbers, Sum, Owned;
    ncoefftot', lens', kept' := ncoefftot, lens, kept;
    assert FieldLaid(field, pl, lens, k.nset);
    var index2 := field.index2;
    if field in pl.fb {
      CountReadable(k, lens, kept, alpha[..], beta[..], nconst[..], ncoefftot, pl.fb[field]);
    }
    if index2 >= 0 && nconst[index2] < field.ncoeff2 {
      ghost var b := pl.fb[field];
      var nmiss := field.ncoeff2 - nconst[index2];
      kept' := CutBlock(alpha, beta, nconst, ncoefftot, index2, index2, field.ncoeff2, nmiss, k, lens, kept, b);
      lens' := lens[b := k.counts[b]];
      Renumber2(fields, index2, nmiss, pl, lens, k.nset, b, k.counts[b]);
      ncoefftot' := ncoefftot - nmiss;
    }
  }

  /** Every block is referred to by a set or a field. */
  ghost predicate Covered(fields: seq<FieldStruct>, pl: Places, nset: nat, nblock: nat) {
    forall b :: 0 <= b < nblock ==> CoveredAt(fields, pl, nset, b)
  }

  ghost predicate CoveredAt(fields: seq<FieldStruct>, pl: Places, nset: nat, b: nat) {
    if b < nset then exists f, s :: f in fields && f.index >= 0 && s in f.set_ && s in pl.sb && pl.sb[s] == b
    else exists f :: f in fields && f in pl.fb && pl.fb[f] == b
  }

  /** The blocks of the sets of a field are trimmed. */
  ghost predicate SetsTrimmed(f: FieldStruct, upto: nat, pl: Places, k: Start0, lens: seq<nat>)
    requires WellStarted(k) && |lens| == |k.len0| && upto <= |f.set_|
  {
    f.index >= 0 ==> forall a :: 0 <= a < upto ==> SetTrimmed(f.set_[a], pl, k, lens)
  }

  ghost predicate SetTrimmed(s: SetStruct, pl: Places, k: Start0, lens: seq<nat>)
    requires WellStarted(k) && |lens| == |k.len0|
  {
    s in pl.sb && pl.sb[s] < |lens| && Trimmed(k, lens, pl.sb[s])
  }

  ghost predicate FieldTrimmed(f: FieldStruct, pl: Places, k: Start0, lens: seq<nat>)
    requires WellStarted(k) && |lens| == |k.len0|
  {
    f in pl.fb ==> pl.fb[f] < |lens| && Trimmed(k, lens, pl.fb[f])
  }

  /** What is trimmed stays trimmed. */
  lemma StaysTrimmed(pl: Places, k: Start0, lens: seq<nat>, lens': seq<nat>, b: nat)
    requires Partly(k, lens) && b < |lens| && lens' == lens[b := Min(lens[b], k.counts[b])]
    ensures |lens'| == |k.len0| && forall j :: 0 <= j < |lens| && Trimmed(k, lens, j) ==> Trimmed(k, lens', j)
  {
  }

  /** "First: exposure-independent coefficients", for one field. */
  method TrimSetsOf(fields: seq<FieldStruct>, field: FieldStruct, alpha: array<real>, beta: array<real>,
      nconst: array<int>, ncoefftot: nat,
                    ghost pl: Places, ghost k: Start0, ghost lens: seq<nat>, ghost kept: seq<nat>)
    returns (ncoefftot': nat, ghost lens': seq<nat>, ghost kept': seq<nat>)
    requires Consistent(fields, pl, k, lens, kept, alpha[..], beta[..], nconst[..], ncoefftot) && alpha != beta
      && Owned(fields)
    requires field in fields
    modifies Objects(fields), alpha, beta, nconst
    ensures Consistent(fields, pl, k, lens', kept', alpha[..], beta[..], nconst[..], ncoefftot') && |lens'| == |lens|
    ensures SetsTrimmed(field, |field.set_|, pl, k, lens') && forall j :: 0 <= j < |lens| && Trimmed(k, lens, j) ==>
      Trimmed(k, lens', j)
  {
    hide Numbers, Laid, Owned, Trimmed;
    ncoefftot', lens', kept' := ncoefftot, lens, kept;
    if field.index >= 0 {
      for s := 0 to |field.set_|
        invariant Consistent(fields, pl, k, lens', kept', alpha[..], beta[..], nconst[..], ncoefftot')
          && |lens'| == |lens|
        invariant SetsTrimmed(field, s, pl, k, lens') && forall j :: 0 <= j < |lens| && Trimmed(k, lens, j) ==>
          Trimmed(k, lens', j)
      {
        ghost var before := lens';
        ncoefftot', lens', kept' := TrimSet(fields, field, field.set_[s], alpha, beta, nconst, ncoefftot', pl, k, lens',
          kept');
        StaysTrimmed(pl, k, before, lens', pl.sb[field.set_[s]]);
      }
    }
  }

  /** The two passes. */
  method Trim(fields: seq<FieldStruct>, alpha: array<real>, beta: array<real>, nconst: array<int>, ncoefftot: nat,
      ghost pl: Places, ghost k: Start0)
    returns (ncoefftot': nat, ghost lens: seq<nat>, ghost kept: seq<nat>)
    requires WellStarted(k) && Laid(fields, pl, k.len0, k.nset) && Owned(fields)
      && Covered(fields, pl, k.nset, |k.len0|)
    requires k.alpha0 == alpha[..] && k.beta0 == beta[..] && alpha != beta && ncoefftot == Total(k.len0) <= beta.Length
    requires Start(ncoefftot, ncoefftot) <= alpha.Length && ncoefftot <= nconst.Length
      && Counted(nconst[..], k.len0, k.counts)
    modifies Objects(fields), alpha, beta, nconst
    ensures |lens| == |k.len0| && forall b :: 0 <= b < |lens| ==> lens[b] == Min(k.len0[b], k.counts[b])
    ensures Laid(fields, pl, lens, k.nset) && ncoefftot' == Total(lens)
    ensures Surviving(kept, k.len0, lens, k.nset) && Submatrix(alpha[..], ncoefftot', k.alpha0, ncoefftot, kept)
    ensures Subvector(beta[..], ncoefftot', k.beta0, kept)
    ensures |kept| == ncoefftot' && forall b, i ::
      0 <= b < |lens| && 0 <= i < lens[b] ==> KeptAt(kept, k.len0, lens, k.nset, b, i)
  {
    hide Numbers, Laid, Owned, Trimmed, Counted, Start, Sum, SetsTrimmed, FieldTrimmed, Covered, KeptAt;
    lens, ncoefftot' := k.len0, ncoefftot;
    kept := NumbersAtStart(k, nconst[..]);
    for f := 0 to |fields|
      invariant Consistent(fields, pl, k, lens, kept, alpha[..], beta[..], nconst[..], ncoefftot') && |lens| == |k.len0|
      invariant forall i :: 0 <= i < f ==> SetsTrimmed(fields[i], |fields[i].set_|, pl, k, lens)
    {
      ghost var before := lens;
      ncoefftot', lens, kept := TrimSetsOf(fields, fields[f], alpha, beta, nconst, ncoefftot', pl, k, lens, kept);
      StillTrimmed(fields, pl, k, before, lens);
    }
    for f := 0 to |fields|
      invariant Consistent(fields, pl, k, lens, kept, alpha[..], beta[..], nconst[..], ncoefftot') && |lens| == |k.len0|
      invariant forall i :: 0 <= i < |fields| ==> SetsTrimmed(fields[i], |fields[i].set_|, pl, k, lens)
      invariant forall i :: 0 <= i < f ==> FieldTrimmed(fields[i], pl, k, lens)
    {
      ghost var before := lens;
      ncoefftot', lens, kept := TrimField(fields, fields[f], alpha, beta, nconst, ncoefftot', pl, k, lens, kept);
      if fields[f] in pl.fb {
        StaysTrimmed(pl, k, before, lens, pl.fb[fields[f]]);
      }
      StillTrimmed(fields, pl, k, before, lens);
      NowTrimmed(fields[f], pl, k, lens);
    }
    AllTrimmed(fields, pl, k, lens);
    KeptExactly(k, lens, kept, alpha[..], beta[..], nconst[..], ncoefftot');
    Unpacked(k, lens, kept, alpha[..], beta[..], nconst[..], ncoefftot');
  }

  /** Of a set block the first coefficients are left, of a field block the last. */
  ghost predicate KeptAt(kept: seq<nat>, len0: seq<nat>, lens: seq<nat>, nset: nat, b: nat, i: nat)
    requires b < |len0| == |lens|
  {
    var place := Sum(lens, b) + i;
    && place < |kept|
    && (b < nset ==> kept[place] == Sum(len0, b) + i)
    && (b >= nset ==> kept[place] == Sum(len0, b + 1) - (lens[b] - i))
  }

  lemma KeptExactly(k: Start0, lens: seq<nat>, kept: seq<nat>, alpha: seq<real>, beta: seq<real>, nconst: seq<int>,
                    n: nat)
    requires Numbers(k, lens, kept, alpha, beta, nconst, n)
    ensures |kept| == n && |lens| == |k.len0|
    ensures forall b, i :: 0 <= b < |lens| && 0 <= i < lens[b] ==> KeptAt(kept, k.len0, lens, k.nset, b, i)
  {
    hide Submatrix, Subvector, Counted, WellStarted;
    forall b, i | 0 <= b < |lens| && 0 <= i < lens[b] ensures KeptAt(kept, k.len0, lens, k.nset, b, i) {
      assert SurvivesAt(kept, k.len0, lens, k.nset, b, i);
    }
  }

  lemma StillTrimmed(fields: seq<FieldStruct>, pl: Places, k: Start0, lens: seq<nat>, lens': seq<nat>)
    requires WellStarted(k) && |lens| == |lens'| == |k.len0|
    requires forall j :: 0 <= j < |lens| && Trimmed(k, lens, j) ==> Trimmed(k, lens', j)
    ensures forall f :: f in fields && SetsTrimmed(f, |f.set_|, pl, k, lens) ==> SetsTrimmed(f, |f.set_|, pl, k, lens')
    ensures forall f :: f in fields && FieldTrimmed(f, pl, k, lens) ==> FieldTrimmed(f, pl, k, lens')
  {
    hide Trimmed;
    forall f | f in fields && SetsTrimmed(f, |f.set_|, pl, k, lens) ensures SetsTrimmed(f, |f.set_|, pl, k, lens') {
      forall a | f.index >= 0 && 0 <= a < |f.set_| ensures SetTrimmed(f.set_[a], pl, k, lens') {
        assert SetTrimmed(f.set_[a], pl, k, lens);
      }
    }
  }

  lemma NowTrimmed(f: FieldStruct, pl: Places, k: Start0, lens: seq<nat>)
    requires WellStarted(k) && |lens| == |k.len0| && (f in pl.fb ==> pl.fb[f] < |lens| && Trimmed(k, lens, pl.fb[f]))
    ensures FieldTrimmed(f, pl, k, lens)
  {
  }

  lemma AllTrimmed(fields: seq<FieldStruct>, pl: Places, k: Start0, lens: seq<nat>)
    requires WellStarted(k) && |lens| == |k.len0| && Covered(fields, pl, k.nset, |lens|)
    requires forall i :: 0 <= i < |fields| ==> SetsTrimmed(fields[i], |fields[i].set_|, pl, k, lens)
    requires forall i :: 0 <= i < |fields| ==> FieldTrimmed(fields[i], pl, k, lens)
    ensures forall b :: 0 <= b < |lens| ==> lens[b] == Min(k.len0[b], k.counts[b])
  {
    forall b | 0 <= b < |lens| ensures lens[b] == Min(k.len0[b], k.counts[b]) {
      assert CoveredAt(fields, pl, k.nset, b);
      if b < k.nset {
        var f: FieldStruct, s: SetStruct :| f in fields && f.index >= 0 && s in f.set_ && s in pl.sb && pl.sb[s] == b;
        assert SetsTrimmed(f, |f.set_|, pl, k, lens);
        var a :| 0 <= a < |f.set_| && f.set_[a] == s;
        assert SetTrimmed(f.set_[a], pl, k, lens);
      } else {
        var f: FieldStruct :| f in fields && f in pl.fb && pl.fb[f] == b;
        assert FieldTrimmed(f, pl, k, lens);
      }
    }
  }

  lemma Unpacked(k: Start0, lens: seq<nat>, kept: seq<nat>, alpha: seq<real>, beta: seq<real>, nconst: seq<int>, n: nat)
    requires Numbers(k, lens, kept, alpha, beta, nconst, n)
    ensures n == Total(lens) && Surviving(kept, k.len0, lens, k.nset)
    ensures Submatrix(alpha, n, k.alpha0, Total(k.len0), kept) && Subvector(beta, n, k.beta0, kept)
  {
  }
}
