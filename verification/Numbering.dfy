// How the blocks of coefficients of the normal equations are numbered
// (the first part of astrsolve_fgroups, scamp/src/astrsolve.c).

module Numbering {
  import opened Basics
  import opened Trimming

  datatype Stability = PerExposure | Predistorted | PerInstrument

  /** A field: its astrometric instrument and the number of its sets. */
  datatype Exposure = Exposure(instru: nat, nset: nat)

  predicate Labelled(fs: seq<Exposure>, st: seq<Stability>) {
    forall n :: 0 <= n < |fs| ==> fs[n].instru < |st|
  }

  // ---- What an instrument asks for ----

  function Count(fs: seq<Exposure>, i: nat): nat {
    if fs == [] then 0
    else Count(fs[..|fs| - 1], i) + if fs[|fs| - 1].instru == i then 1 else 0
  }

  function AllSets(fs: seq<Exposure>, i: nat): nat {
    if fs == [] then 0
    else AllSets(fs[..|fs| - 1], i) + if fs[|fs| - 1].instru == i then fs[|fs| - 1].nset else 0
  }

  function Widest(fs: seq<Exposure>, i: nat): nat {
    if fs == [] then 0
    else
      var w, f := Widest(fs[..|fs| - 1], i), fs[|fs| - 1];
      if f.instru == i && w < f.nset then f.nset else w
  }

  /** How many set blocks an instrument has. */
  function SetCount(fs: seq<Exposure>, st: seq<Stability>, i: nat): nat
    requires i < |st|
  {
    match st[i]
    case PerInstrument => Widest(fs, i)
    case PerExposure => AllSets(fs, i)
    case Predistorted => 0
  }

  /** What the first loop counts as its field blocks. */
  function RawCount(fs: seq<Exposure>, st: seq<Stability>, i: nat): int
    requires i < |st|
  {
    if st[i].PerExposure? then (if Count(fs, i) > 0 then -1 else 0) else Count(fs, i)
  }

  /** How many field blocks its fields refer to: one each if it is predistorted, one for every field but the first if it
      is stable, none if it depends on the exposure. */
  function Used(fs: seq<Exposure>, st: seq<Stability>, i: nat): nat
    requires i < |st|
  {
    match st[i]
    case PerInstrument => if Count(fs, i) > 0 then Count(fs, i) - 1 else 0
    case PerExposure => 0
    case Predistorted => Count(fs, i)
  }

  /** The field's first set among the set blocks of its instrument; -1 if it has none. */
  function RawIndex(fs: seq<Exposure>, st: seq<Stability>, n: nat): int
    requires n < |fs| && fs[n].instru < |st|
  {
    match st[fs[n].instru]
    case PerInstrument => 0
    case PerExposure => AllSets(fs[..n], fs[n].instru)
    case Predistorted => -1
  }

  /** Its place among the field blocks of its instrument; -1 if it has none. */
  function RawIndex2(fs: seq<Exposure>, st: seq<Stability>, n: nat): int
    requires n < |fs| && fs[n].instru < |st|
  {
    match st[fs[n].instru]
    case PerInstrument => Count(fs[..n], fs[n].instru) - 1
    case PerExposure => -1
    case Predistorted => Count(fs[..n], fs[n].instru)
  }

  /** The second loop takes one field block from every instrument, unless the instrument of the very last field is
      predistorted. */
  predicate Spared(fs: seq<Exposure>, st: seq<Stability>)
    requires fs != [] && Labelled(fs, st)
  {
    !st[fs[|fs| - 1].instru].Predistorted?
  }

  function Counts(fs: seq<Exposure>, st: seq<Stability>): (s: seq<nat>)
    ensures |s| == |st|
  {
    seq(|st|, i requires 0 <= i < |st| => SetCount(fs, st, i))
  }

  function Useds(fs: seq<Exposure>, st: seq<Stability>): (s: seq<nat>)
    ensures |s| == |st|
  {
    seq(|st|, i requires 0 <= i < |st| => Used(fs, st, i))
  }

  function Raws(fs: seq<Exposure>, st: seq<Stability>): (s: seq<int>)
    ensures |s| == |st|
  {
    seq(|st|, i requires 0 <= i < |st| => RawCount(fs, st, i))
  }

  function Reduced(raws: seq<int>, spared: bool): (s: seq<int>)
    ensures |s| == |raws|
  {
    seq(|raws|, i requires 0 <= i < |raws| => raws[i] - if spared then 1 else 0)
  }

  /** The field blocks that every instrument claims in the end; fewer than none is possible. */
  function Claimed(fs: seq<Exposure>, st: seq<Stability>): (s: seq<int>)
    requires fs != [] && Labelled(fs, st)
    ensures |s| == |st|
  {
    Reduced(Raws(fs, st), Spared(fs, st))
  }

  function Positive(c: int): nat {
    if c > 0 then c else 0
  }

  /** What every claim adds to the number of coefficients. */
  function Taken(c: seq<int>): (s: seq<nat>)
    ensures |s| == |c|
  {
    seq(|c|, i requires 0 <= i < |c| => Positive(c[i]))
  }

  /** Where the field blocks of an instrument are taken to start. */
  function Offset(c: seq<int>, i: nat): int
    requires i <= |c|
  {
    if i == 0 then 0 else Offset(c, i - 1) + c[i - 1]
  }

  /** Which of the set blocks the set `s` of field `n` refers to. */
  function SetPlace(fs: seq<Exposure>, st: seq<Stability>, n: nat, s: nat): int
    requires n < |fs| && Labelled(fs, st)
  {
    Sum(Counts(fs, st), fs[n].instru) + RawIndex(fs, st, n) + s
  }

  /** Which of the field blocks the field refers to. */
  function FieldPlace(fs: seq<Exposure>, st: seq<Stability>, n: nat): int
    requires n < |fs| && Labelled(fs, st)
  {
    Offset(Claimed(fs, st), fs[n].instru) + RawIndex2(fs, st, n)
  }

  // ---- The loops ----

  lemma Appended(fs: seq<Exposure>, n: nat, i: nat)
    requires n < |fs|
    ensures var own, f := fs[n].instru == i, fs[n];
      && Count(fs[..n + 1], i) == Count(fs[..n], i) + (if own then 1 else 0)
      && AllSets(fs[..n + 1], i) == AllSets(fs[..n], i) + (if own then f.nset else 0)
      && Widest(fs[..n + 1], i) == if own && Widest(fs[..n], i) < f.nset then f.nset else Widest(fs[..n], i)
  {
    assert fs[..n + 1][..n] == fs[..n];
  }

  /** What the first loop has counted after some fields. */
  ghost predicate CountedAt(findex: seq<int>, findex2: seq<int>, nsetmax: seq<int>, fs: seq<Exposure>,
                            st: seq<Stability>, i: nat)
    requires i < |st| && |findex| == |findex2| == |nsetmax| == |st| + 1
  {
    && findex[i + 1] == SetCount(fs, st, i) && findex2[i + 1] == RawCount(fs, st, i)
    && nsetmax[i] == Widest(fs, i)
  }

  ghost predicate CountedSoFar(findex: seq<int>, findex2: seq<int>, nsetmax: seq<int>, fs: seq<Exposure>,
                          st: seq<Stability>)
  {
    && |findex| == |findex2| == |nsetmax| == |st| + 1 && findex[0] == 0 == findex2[0]
    && forall i :: 0 <= i < |st| ==> CountedAt(findex, findex2, nsetmax, fs, st, i)
  }

  /** A turn of the first loop: the field gets its places among the blocks of its instrument, which are counted. */
  method IndexField(fs: seq<Exposure>, st: seq<Stability>, n: nat, findex: array<int>, findex2: array<int>,
                    nsetmax: array<int>)
      returns (index: int, index2: int)
    requires Labelled(fs, st) && n < |fs| && findex != findex2 && findex != nsetmax && findex2 != nsetmax
    requires CountedSoFar(findex[..], findex2[..], nsetmax[..], fs[..n], st)
    modifies findex, findex2, nsetmax
    ensures index == RawIndex(fs, st, n) && index2 == RawIndex2(fs, st, n)
    ensures CountedSoFar(findex[..], findex2[..], nsetmax[..], fs[..n + 1], st)
  {
    hide Count, AllSets, Widest, SetCount, RawCount;
    ghost var was, was2, most := findex[..], findex2[..], nsetmax[..];
    var instru := fs[n].instru;
    assert CountedAt(was, was2, most, fs[..n], st, instru);
    CountsAt(fs, st, n, instru);
    if fs[n].nset > nsetmax[instru] {
      nsetmax[instru] := fs[n].nset;
    }
    match st[instru] {
      case PerInstrument =>
        index := 0;
        index2 := findex2[instru + 1] - 1;
        findex2[instru + 1] := findex2[instru + 1] + 1;
        findex[instru + 1] := nsetmax[instru];
      case PerExposure =>
        index := findex[instru + 1];
        findex[instru + 1] := findex[instru + 1] + fs[n].nset;
        index2 := -1;
        findex2[instru + 1] := -1;
      case Predistorted =>
        index := -1;
        findex[instru + 1] := 0;
        index2 := findex2[instru + 1];
        findex2[instru + 1] := findex2[instru + 1] + 1;
    }
    ghost var now, now2, more, part := findex[..], findex2[..], nsetmax[..], fs[..n + 1];
    forall i | 0 <= i < |st| ensures CountedAt(now, now2, more, part, st, i) {
      CountsAt(fs, st, n, i);
      assert CountedAt(was, was2, most, fs[..n], st, i);
    }
  }

  /** The first loop. */
  method IndexFields(fs: seq<Exposure>, st: seq<Stability>, findex: array<int>, findex2: array<int>)
      returns (index: seq<int>, index2: seq<int>)
    requires Labelled(fs, st) && findex != findex2 && findex.Length == findex2.Length == |st| + 1
    requires forall i :: 0 <= i <= |st| ==> findex[i] == 0 == findex2[i]
    modifies findex, findex2
    ensures |index| == |fs| == |index2|
    ensures forall n :: 0 <= n < |fs| ==> index[n] == RawIndex(fs, st, n) && index2[n] == RawIndex2(fs, st, n)
    ensures findex[0] == 0 == findex2[0] && findex[1..] == Counts(fs, st) && findex2[1..] == Raws(fs, st)
  {
    hide CountedAt, RawIndex, RawIndex2;
    var nsetmax := new int[|st| + 1](_ => 0);
    index, index2 := [], [];
    NothingCounted(findex[..], findex2[..], nsetmax[..], st);
    for n := 0 to |fs|
      invariant |index| == n == |index2|
      invariant forall k :: 0 <= k < n ==> index[k] == RawIndex(fs, st, k) && index2[k] == RawIndex2(fs, st, k)
      invariant CountedSoFar(findex[..], findex2[..], nsetmax[..], fs[..n], st)
    {
      var i, j := IndexField(fs, st, n, findex, findex2, nsetmax);
      index, index2 := index + [i], index2 + [j];
    }
    assert fs[..|fs|] == fs;
    AllCounted(findex[..], findex2[..], nsetmax[..], fs, st);
  }

  lemma AllCounted(findex: seq<int>, findex2: seq<int>, nsetmax: seq<int>, fs: seq<Exposure>, st: seq<Stability>)
    requires CountedSoFar(findex, findex2, nsetmax, fs, st)
    ensures findex[1..] == Counts(fs, st) && findex2[1..] == Raws(fs, st)
  {
    hide SetCount, RawCount, Widest;
    forall i | 0 <= i < |st| ensures findex[1..][i] == SetCount(fs, st, i) && findex2[1..][i] == RawCount(fs, st, i) {
      assert CountedAt(findex, findex2, nsetmax, fs, st, i);
    }
  }

  lemma NothingCounted(findex: seq<int>, findex2: seq<int>, nsetmax: seq<int>, st: seq<Stability>)
    requires |findex| == |findex2| == |nsetmax| == |st| + 1
    requires forall i :: 0 <= i <= |st| ==> findex[i] == 0 == findex2[i] && nsetmax[i] == 0
    ensures CountedSoFar(findex, findex2, nsetmax, [], st)
  {
  }

  /** What one more field adds to the counts of an instrument, and its own places. */
  lemma CountsAt(fs: seq<Exposure>, st: seq<Stability>, n: nat, i: nat)
    requires n < |fs| && i < |st| && Labelled(fs, st)
    ensures Widest(fs[..n + 1], i) ==
      if fs[n].instru == i && Widest(fs[..n], i) < fs[n].nset then fs[n].nset else Widest(fs[..n], i)
    ensures fs[n].instru != i ==>
      && SetCount(fs[..n + 1], st, i) == SetCount(fs[..n], st, i)
      && RawCount(fs[..n + 1], st, i) == RawCount(fs[..n], st, i)
    ensures fs[n].instru == i ==>
      && RawCount(fs[..n + 1], st, i) == (if st[i].PerExposure? then -1 else RawCount(fs[..n], st, i) + 1)
      && RawIndex2(fs, st, n) == (match st[i] case PerInstrument => RawCount(fs[..n], st, i) - 1 case PerExposure => -1
                                              case Predistorted => RawCount(fs[..n], st, i))
    ensures fs[n].instru == i ==>
      && SetCount(fs[..n + 1], st, i) == (match st[i] case PerInstrument => Widest(fs[..n + 1], i)
                                          case PerExposure => SetCount(fs[..n], st, i) + fs[n].nset
                                          case Predistorted => 0)
      && RawIndex(fs, st, n) == (match st[i] case PerInstrument => 0 case PerExposure => SetCount(fs[..n], st, i)
                                             case Predistorted => -1)
  {
    Appended(fs, n, i);
    hide Count, AllSets, Widest;
  }

  lemma TimesSum(m: nat, a: int, b: int)
    ensures m * a + m * b == m * (a + b)
  {
  }

  /** Up to place `i` the array holds sums of what the instruments claim, at `i` the last claim, and then raw counts. */
  ghost predicate HalfSummed(a: seq<int>, raws: seq<int>, claims: seq<int>, i: nat) {
    && |a| == |raws| + 1 == |claims| + 1 && i <= |claims|
    && (forall j :: 0 <= j < i || j == 0 ==> a[j] == Offset(claims, j))
    && (i > 0 ==> a[i] == claims[i - 1])
    && forall j :: i < j < |a| ==> a[j] == raws[j - 1]
  }

  lemma NextSummed(a: seq<int>, b: seq<int>, raws: seq<int>, claims: seq<int>, i: nat)
    requires HalfSummed(a, raws, claims, i) && i < |claims| && |b| == |a|
    requires b[i + 1] == claims[i] && b[i] == (if i > 0 then a[i] + a[i - 1] else a[i])
    requires forall j :: 0 <= j < |a| && j != i && j != i + 1 ==> b[j] == a[j]
    ensures HalfSummed(b, raws, claims, i + 1)
  {
  }

  lemma {:induction false} OffsetOfCounts(counts: seq<nat>, i: nat)
    requires i <= |counts|
    ensures Offset(counts, i) == Sum(counts, i)
  {
    if i > 0 {
      OffsetOfCounts(counts, i - 1);
    }
  }

  /** A turn of the second loop. */
  method TotalOf(findex: array<int>, findex2: array<int>, st: seq<Stability>, instru: nat, i: nat,
                 ghost counts: seq<int>, ghost raws: seq<int>)
      returns (sets: int, fields: int)
    requires findex != findex2 && instru < |st| && i < |st| == |counts| == |raws|
    requires HalfSummed(findex[..], counts, counts, i)
      && HalfSummed(findex2[..], raws, Reduced(raws, !st[instru].Predistorted?), i)
    modifies findex, findex2
    ensures HalfSummed(findex[..], counts, counts, i + 1)
      && HalfSummed(findex2[..], raws, Reduced(raws, !st[instru].Predistorted?), i + 1)
    ensures sets == counts[i] && fields == Reduced(raws, !st[instru].Predistorted?)[i]
  {
    ghost var claimed := Reduced(raws, !st[instru].Predistorted?);
    ghost var was, was2 := findex[..], findex2[..];
    if st[instru] != Predistorted {
      findex2[i + 1] := findex2[i + 1] - 1;
    }
    sets, fields := findex[i + 1], findex2[i + 1];
    if i > 0 {
      findex[i] := findex[i] + findex[i - 1];
      findex2[i] := findex2[i] + findex2[i - 1];
    }
    hide Offset, HalfSummed;
    NextSummed(was, findex[..], counts, counts, i);
    NextSummed(was2, findex2[..], raws, claimed, i);
  }

  /** The second loop: how many coefficients there are, and where the blocks of every instrument start. `instru` is
      still the instrument of the last field of the first loop. */
  method Totals(findex: array<int>, findex2: array<int>, st: seq<Stability>, instru: nat, ncoeff: nat, ncoeff2: nat,
                ghost counts: seq<nat>, ghost raws: seq<int>)
      returns (ncoefftot: int, startindex2: int)
    requires findex != findex2 && findex.Length == findex2.Length == |st| + 1 && instru < |st| == |counts| == |raws|
    requires findex[0] == 0 == findex2[0] && findex[1..] == counts && findex2[1..] == raws
    modifies findex, findex2
    ensures var claimed := Reduced(raws, !st[instru].Predistorted?);
      && (forall i :: 0 <= i < |st| ==> findex[i] == Sum(counts, i) && findex2[i] == Offset(claimed, i))
      && startindex2 == ncoeff * Total(counts) && ncoefftot == startindex2 + ncoeff2 * Total(Taken(claimed))
  {
    ghost var claimed := Reduced(raws, !st[instru].Predistorted?);
    ghost var taken := Taken(claimed);
    ncoefftot, startindex2 := 0, 0;
    NoneSummed(findex[..], counts, counts);
    NoneSummed(findex2[..], raws, claimed);
    hide HalfSummed, Offset, Reduced;
    for i := 0 to |st|
      invariant HalfSummed(findex[..], counts, counts, i) && HalfSummed(findex2[..], raws, claimed, i)
      invariant startindex2 == ncoeff * Sum(counts, i) && ncoefftot == startindex2 + ncoeff2 * Sum(taken, i)
    {
      var sets, fields := TotalOf(findex, findex2, st, instru, i, counts, raws);
      TimesSum(ncoeff, Sum(counts, i), counts[i]);
      TimesSum(ncoeff2, Sum(taken, i), taken[i]);
      if sets > 0 {
        ncoefftot := ncoefftot + ncoeff * sets;
      }
      startindex2 := startindex2 + ncoeff * sets;
      if fields > 0 {
        ncoefftot := ncoefftot + ncoeff2 * fields;
      }
    }
    AllSummed(findex[..], counts, counts);
    AllSummed(findex2[..], raws, claimed);
    forall i | 0 <= i < |st| ensures findex[i] == Sum(counts, i) {
      OffsetOfCounts(counts, i);
    }
  }

  lemma NoneSummed(a: seq<int>, raws: seq<int>, claims: seq<int>)
    requires |a| == |raws| + 1 == |claims| + 1 && a[0] == 0 && a[1..] == raws
    ensures HalfSummed(a, raws, claims, 0)
  {
    assert forall j :: 0 < j < |a| ==> a[j] == a[1..][j - 1];
  }

  lemma AllSummed(a: seq<int>, raws: seq<int>, claims: seq<int>)
    requires HalfSummed(a, raws, claims, |claims|)
    ensures |a| == |claims| + 1 && forall i :: 0 <= i < |claims| ==> a[i] == Offset(claims, i)
  {
  }

  /** The numbers of the coefficients of the field's sets. */
  method NumberSets(nset: nat, first: int, index: int, ncoeff: nat) returns (numbers: seq<int>)
    ensures |numbers| == nset
    ensures forall s :: 0 <= s < nset ==> numbers[s] == if first < 0 then -1 else index + s * ncoeff
  {
    numbers := [];
    for s := 0 to nset
      invariant |numbers| == s
      invariant forall r :: 0 <= r < s ==> numbers[r] == if first < 0 then -1 else index + r * ncoeff
    {
      numbers := numbers + [if first < 0 then -1 else index + s * ncoeff];
    }
  }

  /** The number of a set's first coefficient, and of the field's first one; -1 if there is none. */
  function SetNumber(fs: seq<Exposure>, st: seq<Stability>, n: nat, s: nat, ncoeff: nat): int
    requires n < |fs| && Labelled(fs, st)
  {
    if RawIndex(fs, st, n) < 0 then -1 else ncoeff * SetPlace(fs, st, n, s)
  }

  function FieldNumber(fs: seq<Exposure>, st: seq<Stability>, n: nat, ncoeff: nat, ncoeff2: nat): int
    requires n < |fs| && Labelled(fs, st)
  {
    if RawIndex2(fs, st, n) < 0 then -1 else ncoeff * Total(Counts(fs, st)) + ncoeff2 * FieldPlace(fs, st, n)
  }

  /** All numbers: set blocks come first, field blocks after them. */
  method NumberFields(fs: seq<Exposure>, st: seq<Stability>, ncoeff: nat, ncoeff2: nat)
      returns (ncoefftot: int, index: seq<seq<int>>, index2: seq<int>)
    requires fs != [] && Labelled(fs, st)
    ensures ncoefftot == ncoeff * Total(Counts(fs, st)) + ncoeff2 * Total(Taken(Claimed(fs, st)))
    ensures |index| == |fs| == |index2|
    ensures forall n :: 0 <= n < |fs| ==>
      |index[n]| == fs[n].nset && index2[n] == FieldNumber(fs, st, n, ncoeff, ncoeff2)
    ensures forall n, s :: 0 <= n < |fs| && 0 <= s < fs[n].nset ==> index[n][s] == SetNumber(fs, st, n, s, ncoeff)
  {
    hide Counts, Claimed, Raws, RawIndex, RawIndex2, Sum, Offset, SetNumber, FieldNumber, Reduced, Taken;
    var findex, findex2 := new int[|st| + 1](_ => 0), new int[|st| + 1](_ => 0);
    var raw, raw2 := IndexFields(fs, st, findex, findex2);
    var instru := fs[|fs| - 1].instru;
    var startindex2;
    ncoefftot, startindex2 := Totals(findex, findex2, st, instru, ncoeff, ncoeff2, Counts(fs, st), Raws(fs, st));
    ClaimedIs(fs, st);
    index, index2 := [], [];
    for n := 0 to |fs|
      invariant |index| == n == |index2|
      invariant forall i :: 0 <= i < |st| ==>
        findex[i] == Sum(Counts(fs, st), i) && findex2[i] == Offset(Claimed(fs, st), i)
      invariant forall m :: 0 <= m < n ==>
        |index[m]| == fs[m].nset && index2[m] == FieldNumber(fs, st, m, ncoeff, ncoeff2)
      invariant forall m, s :: 0 <= m < n && 0 <= s < fs[m].nset ==> index[m][s] == SetNumber(fs, st, m, s, ncoeff)
    {
      instru := fs[n].instru;
      var sets := NumberSets(fs[n].nset, raw[n], ncoeff * (raw[n] + findex[instru]), ncoeff);
      NumbersOf(fs, st, n, ncoeff, ncoeff2, findex[instru], findex2[instru]);
      index := index + [sets];
      index2 := index2 + [if raw2[n] < 0 then -1 else startindex2 + ncoeff2 * (raw2[n] + findex2[instru])];
    }
  }

  lemma NumbersOf(fs: seq<Exposure>, st: seq<Stability>, n: nat, ncoeff: nat, ncoeff2: nat, offset: int, offset2: int)
    requires n < |fs| && Labelled(fs, st)
    requires offset == Sum(Counts(fs, st), fs[n].instru) && offset2 == Offset(Claimed(fs, st), fs[n].instru)
    ensures forall s :: 0 <= s < fs[n].nset ==>
      SetNumber(fs, st, n, s, ncoeff) ==
      if RawIndex(fs, st, n) < 0 then -1 else ncoeff * (RawIndex(fs, st, n) + offset) + s * ncoeff
    ensures FieldNumber(fs, st, n, ncoeff, ncoeff2) == if RawIndex2(fs, st, n) < 0 then -1
      else ncoeff * Total(Counts(fs, st)) + ncoeff2 * (RawIndex2(fs, st, n) + offset2)
  {
    hide Counts, Claimed, RawIndex, RawIndex2, Sum, Offset;
    forall s | 0 <= s < fs[n].nset ensures ncoeff * (RawIndex(fs, st, n) + offset) + s * ncoeff ==
      ncoeff * (offset + RawIndex(fs, st, n) + s) {
      TimesSum(ncoeff, RawIndex(fs, st, n) + offset, s);
    }
  }

  lemma ClaimedIs(fs: seq<Exposure>, st: seq<Stability>)
    requires fs != [] && Labelled(fs, st)
    ensures Claimed(fs, st) == Reduced(Raws(fs, st), !st[fs[|fs| - 1].instru].Predistorted?)
  {
    hide Reduced, Raws;
  }

  // ---- When consecutive blocks tile ----

  /** Place `p` is the `k`-th of the `used[i]` places that start at the offset of `i`. */
  ghost predicate At(used: seq<nat>, claims: seq<int>, i: int, k: int, p: int)
    requires |used| == |claims|
  {
    0 <= i < |used| && 0 <= k < used[i] && p == Offset(claims, i) + k
  }

  ghost predicate Held(used: seq<nat>, claims: seq<int>, p: int)
    requires |used| == |claims|
  {
    exists i, k :: At(used, claims, i, k, p)
  }

  /** The places used are those that the claims have reserved, each once. */
  ghost predicate Tiles(used: seq<nat>, claims: seq<int>)
    requires |used| == |claims|
  {
    && (forall i, k, p :: At(used, claims, i, k, p) ==> 0 <= p < Total(Taken(claims)))
    && (forall i, k, j, l, p :: At(used, claims, i, k, p) && At(used, claims, j, l, p) ==> i == j && k == l)
    && forall p :: 0 <= p < Total(Taken(claims)) ==> Held(used, claims, p)
  }

  /** Everybody uses what it claims, and nobody comes after a negative claim. */
  ghost predicate InOrder(used: seq<nat>, claims: seq<int>)
    requires |used| == |claims|
  {
    && used == Taken(claims)
    && forall i, j :: 0 <= j < i < |claims| && claims[j] < 0 ==> used[i] == 0
  }

  /** A negative claim moves the blocks after it down, nothing moves them up. */
  lemma {:induction false} OffsetLow(claims: seq<int>, i: nat, j: nat)
    requires j < i <= |claims|
    ensures Offset(claims, i) <= Sum(Taken(claims), i) && (claims[j] < 0 ==> Offset(claims, i) < Sum(Taken(claims), i))
    decreases i
  {
    if i > 1 {
      OffsetLow(claims, i - 1, if j < i - 1 then j else 0);
    }
  }

  lemma {:induction false} OffsetIs(claims: seq<int>, i: nat)
    requires i <= |claims| && forall j :: 0 <= j < i ==> claims[j] >= 0
    ensures Offset(claims, i) == Sum(Taken(claims), i)
  {
    if i > 0 {
      OffsetIs(claims, i - 1);
    }
  }

  lemma OrderedTiles(used: seq<nat>, claims: seq<int>)
    requires |used| == |claims| && InOrder(used, claims)
    ensures Tiles(used, claims)
  {
    hide Offset, Sum, Taken;
    forall i, k, p | At(used, claims, i, k, p)
      ensures 0 <= p < Total(used) && p == Sum(used, i) + k < Sum(used, i) + used[i] <= Total(used)
    {
      OffsetIs(claims, i);
      SumGrows(used, i, |used|);
    }
    forall i, k, j, l, p | At(used, claims, i, k, p) && At(used, claims, j, l, p) ensures i == j && k == l {
      SumsApart(used, i, j);
    }
    forall p | 0 <= p < Total(used) ensures Held(used, claims, p) {
      var i, k := BlockOf(used, p, |used|);
      OffsetIs(claims, i);
      assert At(used, claims, i, k, p);
    }
  }

  lemma SumsApart(used: seq<nat>, i: nat, j: nat)
    requires i < |used| && j < |used|
    ensures i < j ==> Sum(used, i) + used[i] <= Sum(used, j)
    ensures j < i ==> Sum(used, j) + used[j] <= Sum(used, i)
  {
    if i < j {
      SumGrows(used, i, j);
    } else if j < i {
      SumGrows(used, j, i);
    }
  }

  // The converse: there are as many places as are used, and no block starts low.

  ghost function Span(lo: int, n: nat): (s: set<int>)
    ensures forall p :: p in s <==> lo <= p < lo + n
  {
    if n == 0 then {} else Span(lo, n - 1) + {lo + n - 1}
  }

  lemma {:induction false} SpanCount(lo: int, n: nat)
    ensures |Span(lo, n)| == n
  {
    if n > 0 {
      SpanCount(lo, n - 1);
    }
  }

  /** The places of the first blocks. */
  ghost function HeldBy(used: seq<nat>, claims: seq<int>, n: nat): set<int>
    requires n <= |used| == |claims|
  {
    if n == 0 then {} else HeldBy(used, claims, n - 1) + Span(Offset(claims, n - 1), used[n - 1])
  }

  lemma {:induction false} HeldByIs(used: seq<nat>, claims: seq<int>, n: nat, p: int)
    requires n <= |used| == |claims|
    ensures p in HeldBy(used, claims, n) <==> exists i, k :: i < n && At(used, claims, i, k, p)
  {
    hide Offset;
    if n > 0 {
      HeldByIs(used, claims, n - 1, p);
      if p in Span(Offset(claims, n - 1), used[n - 1]) {
        assert At(used, claims, n - 1, p - Offset(claims, n - 1), p);
      }
    }
  }

  lemma SpanApart(used: seq<nat>, claims: seq<int>, n: nat, p: int)
    requires n < |used| == |claims| && Tiles(used, claims) && p in Span(Offset(claims, n), used[n])
    ensures p !in HeldBy(used, claims, n)
  {
    hide Offset, Taken, HeldBy, Sum;
    HeldByIs(used, claims, n, p);
    assert At(used, claims, n, p - Offset(claims, n), p);
  }

  lemma {:induction false} HeldByCount(used: seq<nat>, claims: seq<int>, n: nat)
    requires n <= |used| == |claims| && Tiles(used, claims)
    ensures |HeldBy(used, claims, n)| == Sum(used, n)
  {
    hide Offset, Taken, Tiles, Span;
    if n > 0 {
      HeldByCount(used, claims, n - 1);
      var former, last := HeldBy(used, claims, n - 1), Span(Offset(claims, n - 1), used[n - 1]);
      SpanCount(Offset(claims, n - 1), used[n - 1]);
      forall p | p in last ensures p !in former {
        SpanApart(used, claims, n - 1, p);
      }
      assert former !! last;
    }
  }

  lemma TilesCount(used: seq<nat>, claims: seq<int>)
    requires |used| == |claims| && Tiles(used, claims)
    ensures Total(used) == Total(Taken(claims))
  {
    hide Offset, Taken, Sum, HeldBy, At;
    var n := |used|;
    HeldByCount(used, claims, n);
    SpanCount(0, Total(Taken(claims)));
    forall p ensures p in HeldBy(used, claims, n) <==> p in Span(0, Total(Taken(claims))) {
      HeldByIs(used, claims, n, p);
      HeldInside(used, claims, p);
    }
    assert HeldBy(used, claims, n) == Span(0, Total(Taken(claims)));
  }

  lemma HeldInside(used: seq<nat>, claims: seq<int>, p: int)
    requires |used| == |claims| && Tiles(used, claims)
    ensures 0 <= p < Total(Taken(claims)) <==> exists i, k :: i < |used| && At(used, claims, i, k, p)
  {
    hide Offset, Taken, Sum;
    if 0 <= p < Total(Taken(claims)) {
      assert Held(used, claims, p);
      var i, k :| At(used, claims, i, k, p);
      assert i < |used|;
    }
  }

  /** If nobody uses more than another sequence has, and the sums are the same, the sequences are. */
  lemma {:induction false} SumsEqual(a: seq<nat>, b: seq<nat>, n: nat)
    requires n <= |a| == |b| && (forall i :: 0 <= i < |a| ==> a[i] <= b[i]) && Sum(a, n) == Sum(b, n)
    ensures a[..n] == b[..n]
  {
    if n > 0 {
      SumBelow(a, b, n - 1);
      SumsEqual(a, b, n - 1);
      assert a[..n] == a[..n - 1] + [a[n - 1]] && b[..n] == b[..n - 1] + [b[n - 1]];
    }
  }

  /** The blocks before `i`, if none starts low, hold all places below their sum. */
  lemma HeldBefore(used: seq<nat>, claims: seq<int>, i: nat, p: nat)
    requires i <= |used| == |claims| && p < Sum(used, i)
    requires forall j :: 0 <= j < i && used[j] > 0 ==> Offset(claims, j) == Sum(used, j)
    ensures exists j, k :: j < i && At(used, claims, j, k, p)
  {
    hide Offset, Sum;
    var j, k := BlockOf(used, p, i);
    assert At(used, claims, j, k, p);
  }

  /** So a block that started low would hold a place of one before it. */
  lemma NotLow(used: seq<nat>, claims: seq<int>, i: nat)
    requires i < |used| == |claims| && Tiles(used, claims) && used == Taken(claims) && used[i] > 0
    requires forall j :: 0 <= j < i && used[j] > 0 ==> Offset(claims, j) == Sum(used, j)
    ensures Offset(claims, i) == Sum(used, i)
  {
    if i > 0 {
      OffsetLow(claims, i, 0);
      hide Offset, Sum, Taken;
      var p := Offset(claims, i);
      assert At(used, claims, i, 0, p);
      if p < Sum(used, i) {
        HeldBefore(used, claims, i, p);
      }
    }
  }

  lemma {:induction false} NoneLow(used: seq<nat>, claims: seq<int>, i: nat)
    requires i <= |used| == |claims| && Tiles(used, claims) && used == Taken(claims)
    ensures forall j :: 0 <= j < i && used[j] > 0 ==> Offset(claims, j) == Sum(used, j)
  {
    hide Offset, Sum, Taken, Tiles;
    if i > 0 {
      NoneLow(used, claims, i - 1);
      if used[i - 1] > 0 {
        NotLow(used, claims, i - 1);
      }
    }
  }

  /** Exactly then, if nobody uses more than it claims or nobody less. */
  lemma TilesExactly(used: seq<nat>, claims: seq<int>)
    requires |used| == |claims|
    requires (forall i :: 0 <= i < |used| ==> used[i] <= Taken(claims)[i])
      || (forall i :: 0 <= i < |used| ==> Taken(claims)[i] <= used[i])
    ensures Tiles(used, claims) <==> InOrder(used, claims)
  {
    hide Tiles, Sum, Offset, Taken;
    var n := |used|;
    if InOrder(used, claims) {
      OrderedTiles(used, claims);
    }
    if Tiles(used, claims) {
      TilesCount(used, claims);
      if forall i :: 0 <= i < |used| ==> used[i] <= Taken(claims)[i] {
        SumsEqual(used, Taken(claims), n);
      } else {
        SumsEqual(Taken(claims), used, n);
      }
      assert used[..n] == used && Taken(claims)[..n] == Taken(claims);
      NoneLow(used, claims, n);
      forall i, j | 0 <= j < i < n && claims[j] < 0 ensures used[i] == 0 {
        OffsetLow(claims, i, j);
      }
    }
  }

  // ---- The field blocks ----

  lemma {:induction false} CountGrows(fs: seq<Exposure>, m: nat, n: nat, i: nat)
    requires m < n <= |fs|
    ensures Count(fs[..m], i) + (if fs[m].instru == i then 1 else 0) <= Count(fs[..n], i)
    ensures AllSets(fs[..m], i) + (if fs[m].instru == i then fs[m].nset else 0) <= AllSets(fs[..n], i)
    ensures fs[m].instru == i ==> fs[m].nset <= Widest(fs[..n], i)
    decreases n
  {
    Appended(fs, n - 1, i);
    hide Count, AllSets, Widest;
    if m < n - 1 {
      CountGrows(fs, m, n - 1, i);
    }
  }

  /** The field that comes as number `k` of its instrument. */
  lemma {:induction false} NthField(fs: seq<Exposure>, i: nat, k: nat, n: nat) returns (m: nat)
    requires n <= |fs| && k < Count(fs[..n], i)
    ensures m < n && fs[m].instru == i && Count(fs[..m], i) == k
    decreases n
  {
    if n > 0 {
      Appended(fs, n - 1, i);
      if k < Count(fs[..n - 1], i) {
        m := NthField(fs, i, k, n - 1);
      } else {
        m := n - 1;
      }
    }
  }

  /** The fields of an instrument refer to each of the blocks it uses once. */
  lemma UsedOnce(fs: seq<Exposure>, st: seq<Stability>, n: nat)
    requires Labelled(fs, st) && n < |fs|
    ensures RawIndex2(fs, st, n) < Used(fs, st, fs[n].instru)
    ensures forall m :: 0 <= m < n && fs[m].instru == fs[n].instru && RawIndex2(fs, st, m) >= 0 ==>
      RawIndex2(fs, st, m) < RawIndex2(fs, st, n)
  {
    hide Count;
    var i := fs[n].instru;
    assert fs[..|fs|] == fs;
    CountGrows(fs, n, |fs|, i);
    forall m | 0 <= m < n ensures Count(fs[..m], i) + (if fs[m].instru == i then 1 else 0) <= Count(fs[..n], i) {
      CountGrows(fs, m, n, i);
    }
  }

  lemma UsedBy(fs: seq<Exposure>, st: seq<Stability>, i: nat, k: nat) returns (n: nat)
    requires Labelled(fs, st) && i < |st| && k < Used(fs, st, i)
    ensures n < |fs| && fs[n].instru == i && RawIndex2(fs, st, n) == k
  {
    assert fs[..|fs|] == fs;
    n := NthField(fs, i, if st[i].PerInstrument? then k + 1 else k, |fs|);
  }

  /** Field `n` has a field block, and it is this one. */
  ghost predicate Refers(fs: seq<Exposure>, st: seq<Stability>, n: int, p: int)
    requires Labelled(fs, st)
  {
    0 <= n < |fs| && RawIndex2(fs, st, n) >= 0 && p == FieldPlace(fs, st, n)
  }

  ghost predicate ReferredTo(fs: seq<Exposure>, st: seq<Stability>, p: int)
    requires Labelled(fs, st)
  {
    exists n :: Refers(fs, st, n, p)
  }

  /** The field blocks are exactly those for which there are coefficients, and no two fields share one. */
  ghost predicate FieldBlocksTile(fs: seq<Exposure>, st: seq<Stability>)
    requires fs != [] && Labelled(fs, st)
  {
    && (forall n, p :: Refers(fs, st, n, p) ==> 0 <= p < Total(Taken(Claimed(fs, st))))
    && (forall m, n, p :: Refers(fs, st, m, p) && Refers(fs, st, n, p) ==> m == n)
    && forall p :: 0 <= p < Total(Taken(Claimed(fs, st))) ==> ReferredTo(fs, st, p)
  }

  lemma RefersAt(fs: seq<Exposure>, st: seq<Stability>, n: int, p: int)
    requires fs != [] && Labelled(fs, st) && Refers(fs, st, n, p)
    ensures 0 <= n < |fs| && At(Useds(fs, st), Claimed(fs, st), fs[n].instru, RawIndex2(fs, st, n), p)
  {
    UsedOnce(fs, st, n);
    hide RawIndex2, Used, Offset, Claimed;
  }

  lemma AtRefers(fs: seq<Exposure>, st: seq<Stability>, i: int, k: int, p: int) returns (n: nat)
    requires fs != [] && Labelled(fs, st) && At(Useds(fs, st), Claimed(fs, st), i, k, p)
    ensures Refers(fs, st, n, p) && fs[n].instru == i && RawIndex2(fs, st, n) == k
  {
    hide RawIndex2, Used, Offset, Claimed;
    n := UsedBy(fs, st, i, k);
  }

  lemma FieldsTile(fs: seq<Exposure>, st: seq<Stability>)
    requires fs != [] && Labelled(fs, st) && FieldBlocksTile(fs, st)
    ensures Tiles(Useds(fs, st), Claimed(fs, st))
  {
    hide Refers, At, Useds, Claimed, Taken, Sum, RawIndex2;
    var used, claims := Useds(fs, st), Claimed(fs, st);
    forall i, k, p | At(used, claims, i, k, p) ensures 0 <= p < Total(Taken(claims)) {
      var n := AtRefers(fs, st, i, k, p);
    }
    forall i, k, j, l, p | At(used, claims, i, k, p) && At(used, claims, j, l, p) ensures i == j && k == l {
      var m := AtRefers(fs, st, i, k, p);
      var n := AtRefers(fs, st, j, l, p);
    }
    forall p | 0 <= p < Total(Taken(claims)) ensures Held(used, claims, p) {
      assert ReferredTo(fs, st, p);
      var n :| Refers(fs, st, n, p);
      RefersTo(fs, st, n, p);
    }
  }

  lemma RefersTo(fs: seq<Exposure>, st: seq<Stability>, n: int, p: int)
    requires fs != [] && Labelled(fs, st) && Refers(fs, st, n, p)
    ensures Held(Useds(fs, st), Claimed(fs, st), p)
  {
    RefersAt(fs, st, n, p);
    hide At, Useds, Claimed, RawIndex2, FieldPlace;
  }

  lemma TilesFields(fs: seq<Exposure>, st: seq<Stability>)
    requires fs != [] && Labelled(fs, st) && Tiles(Useds(fs, st), Claimed(fs, st))
    ensures FieldBlocksTile(fs, st)
  {
    hide At, Useds, Claimed, Taken, Sum, RawIndex2, FieldPlace;
    var used, claims := Useds(fs, st), Claimed(fs, st);
    forall n, p | Refers(fs, st, n, p)
      ensures 0 <= p < Total(Taken(claims)) && 0 <= n < |fs| && At(used, claims, fs[n].instru, RawIndex2(fs, st, n), p)
    {
      RefersAt(fs, st, n, p);
    }
    forall m, n, p | Refers(fs, st, m, p) && Refers(fs, st, n, p) ensures m == n {
      if m < n {
        UsedOnce(fs, st, n);
      } else {
        UsedOnce(fs, st, m);
      }
    }
    forall p | 0 <= p < Total(Taken(claims)) ensures ReferredTo(fs, st, p) {
      assert Held(used, claims, p);
      var i, k :| At(used, claims, i, k, p);
      var n := AtRefers(fs, st, i, k, p);
    }
  }

  /** An instrument that claims less than no block. */
  predicate Shifts(fs: seq<Exposure>, st: seq<Stability>, j: nat)
    requires fs != [] && Labelled(fs, st) && j < |st|
  {
    if st[j].PerExposure? then Count(fs, j) > 0 || Spared(fs, st) else Spared(fs, st) && Count(fs, j) == 0
  }

  /** Whether one block is spared suits the kind of every instrument with fields, and no instrument with field blocks
      comes after one that claims less than none. */
  ghost predicate Orderly(fs: seq<Exposure>, st: seq<Stability>)
    requires fs != [] && Labelled(fs, st)
  {
    && (forall i :: 0 <= i < |st| && Count(fs, i) > 0 ==>
          if Spared(fs, st) then !st[i].Predistorted? else !st[i].PerInstrument?)
    && forall i, j :: 0 <= j < i < |st| && Shifts(fs, st, j) ==> Used(fs, st, i) == 0
  }

  lemma ClaimOf(fs: seq<Exposure>, st: seq<Stability>, i: nat)
    requires fs != [] && Labelled(fs, st) && i < |st|
    ensures Claimed(fs, st)[i] < 0 <==> Shifts(fs, st, i)
    ensures Spared(fs, st) ==> Taken(Claimed(fs, st))[i] <= Useds(fs, st)[i]
    ensures !Spared(fs, st) ==> Useds(fs, st)[i] <= Taken(Claimed(fs, st))[i]
    ensures Useds(fs, st)[i] == Taken(Claimed(fs, st))[i] <==>
      (Count(fs, i) > 0 ==> if Spared(fs, st) then !st[i].Predistorted? else !st[i].PerInstrument?)
    ensures Useds(fs, st)[i] == Used(fs, st, i)
  {
    hide Count, Spared;
  }

  /** Exactly when the field blocks tile the coefficients that are left after the set blocks. */
  lemma FieldBlocksTileExactly(fs: seq<Exposure>, st: seq<Stability>)
    requires fs != [] && Labelled(fs, st)
    ensures FieldBlocksTile(fs, st) <==> Orderly(fs, st)
  {
    hide FieldBlocksTile, Tiles, Claimed, Useds, Taken, Shifts, Spared, Used, Count;
    var used, claims := Useds(fs, st), Claimed(fs, st);
    forall i | 0 <= i < |st|
      ensures (claims[i] < 0 <==> Shifts(fs, st, i)) && used[i] == Used(fs, st, i)
      ensures if Spared(fs, st) then Taken(claims)[i] <= used[i] else used[i] <= Taken(claims)[i]
      ensures used[i] == Taken(claims)[i] <==>
        (Count(fs, i) > 0 ==> if Spared(fs, st) then !st[i].Predistorted? else !st[i].PerInstrument?)
    {
      ClaimOf(fs, st, i);
    }
    TilesExactly(used, claims);
    if FieldBlocksTile(fs, st) {
      FieldsTile(fs, st);
    }
    if Tiles(used, claims) {
      TilesFields(fs, st);
    }
  }

  /** One exposure-dependent instrument before a stable one: its count ends at -2, and the field block of the other
      instrument comes before the end of the set blocks. */
  lemma OneExposure(ncoeff: nat, ncoeff2: nat)
    ensures var fs, st := [Exposure(0, 1), Exposure(1, 1), Exposure(1, 1)], [PerExposure, PerInstrument];
      && Claimed(fs, st)[0] == -2 && !Orderly(fs, st) && Total(Counts(fs, st)) == 2
      && FieldNumber(fs, st, 2, ncoeff, ncoeff2) == ncoeff * 2 - ncoeff2 * 2
  {
    var a, b, c := Exposure(0, 1), Exposure(1, 1), Exposure(1, 1);
    var fs, st := [a, b, c], [PerExposure, PerInstrument];
    ThreeFields(a, b, c, 0);
    ThreeFields(a, b, c, 1);
    assert Shifts(fs, st, 0) && Used(fs, st, 1) == 1;
    assert Claimed(fs, st) == [-2, 1] && Offset([-2, 1], 1) == -2;
    assert Counts(fs, st) == [1, 1] && Sum([1, 1], 1) == 1;
  }

  /** A predistorted instrument before a stable one, which comes last: its field refers to a block for which there are
      no coefficients. */
  lemma OnePredistorted(ncoeff: nat, ncoeff2: nat)
    ensures var fs, st := [Exposure(0, 1), Exposure(1, 1)], [Predistorted, PerInstrument];
      && !Orderly(fs, st) && RawIndex2(fs, st, 0) == 0
      && FieldNumber(fs, st, 0, ncoeff, ncoeff2) ==
        ncoeff * Total(Counts(fs, st)) + ncoeff2 * Total(Taken(Claimed(fs, st)))
  {
    var fs, st := [Exposure(0, 1), Exposure(1, 1)], [Predistorted, PerInstrument];
    TwoFields(fs[0], fs[1], 0);
    TwoFields(fs[0], fs[1], 1);
    assert Claimed(fs, st) == [0, 0] && Taken([0, 0]) == [0, 0] && Sum([0, 0], 2) == 0;
  }

  lemma TwoFields(a: Exposure, b: Exposure, i: nat)
    ensures [a, b][..1] == [a] && [a, b][..0] == []
    ensures Count([a, b], i) == (if a.instru == i then 1 else 0) + if b.instru == i then 1 else 0
    ensures AllSets([a, b], i) == (if a.instru == i then a.nset else 0) + if b.instru == i then b.nset else 0
    ensures Widest([a, b], i) == var w := if a.instru == i then a.nset else 0;
      if b.instru == i && w < b.nset then b.nset else w
  {
    assert [a, b][..1] == [a] && [a][..0] == [];
    assert Count([a], i) == if a.instru == i then 1 else 0;
    assert AllSets([a], i) == if a.instru == i then a.nset else 0;
    assert Widest([a], i) == if a.instru == i then a.nset else 0;
  }

  lemma ThreeFields(a: Exposure, b: Exposure, c: Exposure, i: nat)
    ensures [a, b, c][..2] == [a, b]
    ensures Count([a, b, c], i) == Count([a, b], i) + if c.instru == i then 1 else 0
    ensures AllSets([a, b, c], i) == AllSets([a, b], i) + if c.instru == i then c.nset else 0
    ensures Widest([a, b, c], i) == var w := Widest([a, b], i); if c.instru == i && w < c.nset then c.nset else w
    ensures Count([a, b], i) == (if a.instru == i then 1 else 0) + if b.instru == i then 1 else 0
    ensures AllSets([a, b], i) == (if a.instru == i then a.nset else 0) + if b.instru == i then b.nset else 0
    ensures Widest([a, b], i) == var w := if a.instru == i then a.nset else 0;
      if b.instru == i && w < b.nset then b.nset else w
  {
    TwoFields(a, b, i);
    assert [a, b, c][..2] == [a, b];
  }

  // ---- The set blocks ----

  lemma {:induction false} NthSet(fs: seq<Exposure>, i: nat, x: nat, n: nat) returns (m: nat, s: nat)
    requires n <= |fs| && x < AllSets(fs[..n], i)
    ensures m < n && fs[m].instru == i && s < fs[m].nset && AllSets(fs[..m], i) + s == x
    decreases n
  {
    if n > 0 {
      Appended(fs, n - 1, i);
      if x < AllSets(fs[..n - 1], i) {
        m, s := NthSet(fs, i, x, n - 1);
      } else {
        m, s := n - 1, x - AllSets(fs[..n - 1], i);
      }
    }
  }

  lemma {:induction false} WideField(fs: seq<Exposure>, i: nat, s: nat, n: nat) returns (m: nat)
    requires n <= |fs| && s < Widest(fs[..n], i)
    ensures m < n && fs[m].instru == i && s < fs[m].nset
    decreases n
  {
    if n > 0 {
      Appended(fs, n - 1, i);
      if s < Widest(fs[..n - 1], i) {
        m := WideField(fs, i, s, n - 1);
      } else {
        m := n - 1;
      }
    }
  }

  /** Set `s` of field `n` has a set block, and it is this one. */
  ghost predicate SetRefers(fs: seq<Exposure>, st: seq<Stability>, n: int, s: int, p: int)
    requires Labelled(fs, st)
  {
    0 <= n < |fs| && 0 <= s < fs[n].nset && RawIndex(fs, st, n) >= 0 && p == SetPlace(fs, st, n, s)
  }

  ghost predicate SetReferredTo(fs: seq<Exposure>, st: seq<Stability>, p: int)
    requires Labelled(fs, st)
  {
    exists n, s :: SetRefers(fs, st, n, s, p)
  }

  /** Two sets share their coefficients: equal sets of a stable instrument. */
  predicate Shared(fs: seq<Exposure>, st: seq<Stability>, m: nat, r: int, n: nat, s: int)
    requires Labelled(fs, st) && m < |fs| && n < |fs|
  {
    fs[m].instru == fs[n].instru && r == s && (st[fs[n].instru].PerExposure? ==> m == n)
  }

  /** Where a set's block is among those of its instrument. */
  lemma InsideInstrument(fs: seq<Exposure>, st: seq<Stability>, n: nat, s: nat)
    requires Labelled(fs, st) && n < |fs| && s < fs[n].nset && RawIndex(fs, st, n) >= 0
    ensures RawIndex(fs, st, n) + s < SetCount(fs, st, fs[n].instru)
    ensures forall m, r :: 0 <= m < n && 0 <= r < fs[m].nset && fs[m].instru == fs[n].instru ==>
      (RawIndex(fs, st, m) + r == RawIndex(fs, st, n) + s <==> Shared(fs, st, m, r, n, s))
  {
    hide AllSets, Widest, Count;
    var i := fs[n].instru;
    assert fs[..|fs|] == fs;
    CountGrows(fs, n, |fs|, i);
    forall m | 0 <= m < n && fs[m].instru == i ensures AllSets(fs[..m], i) + fs[m].nset <= AllSets(fs[..n], i) {
      CountGrows(fs, m, n, i);
    }
  }

  lemma SetOf(fs: seq<Exposure>, st: seq<Stability>, i: nat, x: nat) returns (n: nat, s: nat)
    requires Labelled(fs, st) && i < |st| && x < SetCount(fs, st, i)
    ensures n < |fs| && fs[n].instru == i && s < fs[n].nset && RawIndex(fs, st, n) >= 0 && RawIndex(fs, st, n) + s == x
  {
    assert fs[..|fs|] == fs;
    if st[i].PerExposure? {
      n, s := NthSet(fs, i, x, |fs|);
    } else {
      s := x;
      n := WideField(fs, i, x, |fs|);
    }
  }

  /** The set blocks always tile the first coefficients: every set of an instrument that is not predistorted has one,
      and two sets have the same one just if they share their coefficients. */
  lemma SetBlocksTile(fs: seq<Exposure>, st: seq<Stability>)
    requires Labelled(fs, st)
    ensures forall n, s, p :: SetRefers(fs, st, n, s, p) ==> 0 <= p < Total(Counts(fs, st))
    ensures forall m, r, n, s, p, p' :: SetRefers(fs, st, m, r, p) && SetRefers(fs, st, n, s, p') ==>
      (p == p' <==> Shared(fs, st, m, r, n, s))
    ensures forall p :: 0 <= p < Total(Counts(fs, st)) ==> SetReferredTo(fs, st, p)
  {
    hide SetCount, RawIndex, Sum, Shared;
    var counts := Counts(fs, st);
    forall n, s, p | SetRefers(fs, st, n, s, p) ensures 0 <= p < Total(counts) {
      InsideInstrument(fs, st, n, s);
      SumsApart(counts, fs[n].instru, fs[n].instru);
      SumGrows(counts, fs[n].instru, |counts|);
    }
    forall m, r, n, s, p, p' | SetRefers(fs, st, m, r, p) && SetRefers(fs, st, n, s, p')
      ensures p == p' <==> Shared(fs, st, m, r, n, s)
    {
      TwoSets(fs, st, m, r, n, s);
    }
    forall p | 0 <= p < Total(counts) ensures SetReferredTo(fs, st, p) {
      var i, x := BlockOf(counts, p, |counts|);
      var n, s := SetOf(fs, st, i, x);
      assert SetRefers(fs, st, n, s, p);
    }
  }

  lemma TwoSets(fs: seq<Exposure>, st: seq<Stability>, m: nat, r: nat, n: nat, s: nat)
    requires Labelled(fs, st) && m < |fs| && r < fs[m].nset && n < |fs| && s < fs[n].nset
    requires RawIndex(fs, st, m) >= 0 && RawIndex(fs, st, n) >= 0
    ensures SetPlace(fs, st, m, r) == SetPlace(fs, st, n, s) <==> Shared(fs, st, m, r, n, s)
  {
    hide SetCount, RawIndex, Sum;
    InsideInstrument(fs, st, m, r);
    InsideInstrument(fs, st, n, s);
    var i, j := fs[m].instru, fs[n].instru;
    SumsApart(Counts(fs, st), i, j);
    assert Counts(fs, st)[i] == SetCount(fs, st, i) && Counts(fs, st)[j] == SetCount(fs, st, j);
    if m < n && i == j {
      assert RawIndex(fs, st, m) + r == RawIndex(fs, st, n) + s <==> Shared(fs, st, m, r, n, s);
    } else if n < m && i == j {
      assert RawIndex(fs, st, n) + s == RawIndex(fs, st, m) + r <==> Shared(fs, st, n, s, m, r);
    }
  }

  // ---- The tiling that trimming starts from ----

  /** Lengths of the set blocks and of the field blocks. */
  function Blocks(n: nat, ncoeff: nat, n2: nat, ncoeff2: nat): (lens: seq<nat>)
    ensures |lens| == n + n2
  {
    seq(n + n2, b => if b < n then ncoeff else ncoeff2)
  }

  lemma {:induction false} BlockStart(n: nat, ncoeff: nat, n2: nat, ncoeff2: nat, b: nat)
    requires b <= n + n2
    ensures Sum(Blocks(n, ncoeff, n2, ncoeff2), b) ==
      if b <= n then ncoeff * b else ncoeff * n + ncoeff2 * (b - n)
  {
    if b > 0 {
      BlockStart(n, ncoeff, n2, ncoeff2, b - 1);
      if b <= n {
        TimesSum(ncoeff, b - 1, 1);
      } else {
        TimesSum(ncoeff2, b - 1 - n, 1);
      }
    }
  }

  /** In the good case all numbers are starts of the blocks of one tiling of all coefficients, and set blocks are so in
      any case. */
  lemma NumbersLaid(fs: seq<Exposure>, st: seq<Stability>, ncoeff: nat, ncoeff2: nat)
    requires fs != [] && Labelled(fs, st)
    ensures var nset, nfield := Total(Counts(fs, st)), Total(Taken(Claimed(fs, st)));
      var lens := Blocks(nset, ncoeff, nfield, ncoeff2);
      && Total(lens) == ncoeff * nset + ncoeff2 * nfield
      && (forall n, s, p :: SetRefers(fs, st, n, s, p) ==>
            0 <= p < nset && SetNumber(fs, st, n, s, ncoeff) == Sum(lens, p))
      && (Orderly(fs, st) ==> forall n, p :: Refers(fs, st, n, p) ==>
            0 <= p < nfield && FieldNumber(fs, st, n, ncoeff, ncoeff2) == Sum(lens, nset + p))
  {
    hide RawIndex, RawIndex2, Sum, Orderly, Counts, Claimed, Taken, SetPlace, FieldPlace, Blocks;
    var nset, nfield := Total(Counts(fs, st)), Total(Taken(Claimed(fs, st)));
    BlockStart(nset, ncoeff, nfield, ncoeff2, nset + nfield);
    SetBlocksTile(fs, st);
    FieldBlocksTileExactly(fs, st);
    forall n, s, p | SetRefers(fs, st, n, s, p)
      ensures SetNumber(fs, st, n, s, ncoeff) == Sum(Blocks(nset, ncoeff, nfield, ncoeff2), p)
    {
      BlockStart(nset, ncoeff, nfield, ncoeff2, p);
    }
    if Orderly(fs, st) {
      forall n, p | Refers(fs, st, n, p)
        ensures FieldNumber(fs, st, n, ncoeff, ncoeff2) == Sum(Blocks(nset, ncoeff, nfield, ncoeff2), nset + p)
      {
        BlockStart(nset, ncoeff, nfield, ncoeff2, nset + p);
      }
    }
  }
}
