// The sweep that matches a set with the reference catalogue (match_refine, scamp/src/match.c).

module MatchSweep {
  import opened Basics

  /** What the sweep reads of a sample: its pixel position and its flux. */
  datatype Source = Source(lng: real, lat: real, flux: real)

  function Distance2(a: Source, b: Source): real {
    (b.lng - a.lng) * (b.lng - a.lng) + (b.lat - a.lat) * (b.lat - a.lat)
  }

  /** Strictly within `rlim` of the reference. */
  predicate Within(ref: Source, s: Source, rlim: real) {
    Distance2(ref, s) < rlim * rlim
  }

  /** Sorted by compraw on the second coordinate. */
  predicate ByLat(s: seq<Source>) {
    forall i, j :: 0 <= i < j < |s| ==> s[i].lat <= s[j].lat
  }

  /** The choice among the first `upto` samples: the brightest one within reach, and the first of those. */
  function Brightest(s: seq<Source>, ref: Source, rlim: real, upto: nat): (best: Option<nat>)
    requires upto <= |s|
    ensures best.Some? ==> best.value < upto
  {
    if upto == 0 then None
    else
      var best := Brightest(s, ref, rlim, upto - 1);
      if Within(ref, s[upto - 1], rlim) && (best == None || s[upto - 1].flux > s[best.value].flux) then Some(upto - 1)
        else best
  }

  /** What the choice means. */
  lemma {:induction false} BrightestIs(s: seq<Source>, ref: Source, rlim: real, upto: nat)
    requires upto <= |s|
    ensures var best := Brightest(s, ref, rlim, upto);
      && (best == None <==> forall k :: 0 <= k < upto ==> !Within(ref, s[k], rlim))
      && (best.Some? ==> Within(ref, s[best.value], rlim))
      && (best.Some? ==> forall k :: 0 <= k < upto && Within(ref, s[k], rlim) ==>
            s[k].flux < s[best.value].flux || (s[k].flux == s[best.value].flux && best.value <= k))
  {
    hide Within;
    if upto > 0 {
      BrightestIs(s, ref, rlim, upto - 1);
    }
  }

  lemma SquareBelow(a: real, b: real, r: real)
    requires 0.0 <= r && a * a + b * b < r * r
    ensures -r < b < r
  {
    SquareNotNegative(a);
    if b >= r || b <= -r {
      SquareAtLeast(b, r);
    }
  }

  lemma SquareAtLeast(b: real, r: real)
    requires 0.0 <= r && (b >= r || b <= -r)
    ensures b * b >= r * r
  {
    if b >= r {
      assert b * b >= r * b >= r * r;
    } else {
      assert (-b) * (-b) >= r * (-b) >= r * r;
      assert (-b) * (-b) == b * b;
    }
  }

  lemma SquareNotNegative(a: real)
    ensures a * a >= 0.0
  {
  }

  /** Only samples in the bands around the reference, in latitude and in longitude, are within reach. */
  lemma InBand(ref: Source, s: Source, rlim: real)
    requires 0.0 <= rlim && Within(ref, s, rlim)
    ensures ref.lat - rlim < s.lat < ref.lat + rlim
    ensures ref.lng - rlim < s.lng < ref.lng + rlim
  {
    SquareBelow(s.lng - ref.lng, s.lat - ref.lat, rlim);
    SquareBelow(s.lat - ref.lat, s.lng - ref.lng, rlim);
  }

  /** The match of a reference, in coordinates: none exactly if every sample is at least `rlim` away, or else one that
      is nearer, with no brighter one among those, and none as bright before it. */
  ghost predicate Matches(s: seq<Source>, ref: Source, rlim: real, best: Option<nat>) {
    match best
    case None => forall k :: 0 <= k < |s| ==> Outside(ref, s[k], rlim)
    case Some(j) =>
      && j < |s| && !Outside(ref, s[j], rlim)
      && forall k :: 0 <= k < |s| && !Outside(ref, s[k], rlim) ==>
           s[k].flux < s[j].flux || (s[k].flux == s[j].flux && j <= k)
  }

  predicate Outside(ref: Source, s: Source, rlim: real) {
    (s.lng - ref.lng) * (s.lng - ref.lng) + (s.lat - ref.lat) * (s.lat - ref.lat) >= rlim * rlim
  }

  lemma OutsideIs(ref: Source, s: Source, rlim: real)
    ensures Outside(ref, s, rlim) <==> !Within(ref, s, rlim)
  {
  }

  lemma BrightestMatches(s: seq<Source>, ref: Source, rlim: real)
    ensures Matches(s, ref, rlim, Brightest(s, ref, rlim, |s|))
  {
    BrightestIs(s, ref, rlim, |s|);
    hide Within, Outside, Brightest;
    forall k | 0 <= k < |s| ensures Outside(ref, s[k], rlim) <==> !Within(ref, s[k], rlim) {
      OutsideIs(ref, s[k], rlim);
    }
  }

  /** Samples out of reach do not change the choice. */
  lemma {:induction false} SkipsBelow(s: seq<Source>, ref: Source, rlim: real, lo: nat)
    requires lo <= |s| && forall k :: 0 <= k < lo ==> !Within(ref, s[k], rlim)
    ensures Brightest(s, ref, rlim, lo) == None
  {
    hide Within;
    if lo > 0 {
      SkipsBelow(s, ref, rlim, lo - 1);
    }
  }

  lemma {:induction false} SkipsAbove(s: seq<Source>, ref: Source, rlim: real, hi: nat, upto: nat)
    requires hi <= upto <= |s| && forall k :: hi <= k < upto ==> !Within(ref, s[k], rlim)
    ensures Brightest(s, ref, rlim, upto) == Brightest(s, ref, rlim, hi)
    decreases upto
  {
    hide Within;
    if hi < upto {
      SkipsAbove(s, ref, rlim, hi, upto - 1);
    }
  }

  /** The inner two loops for one reference: where the next reference starts, and the match. */
  method MatchOne(s: seq<Source>, ref: Source, rlim: real, start: nat) returns (start': nat, match': Option<nat>)
    requires ByLat(s) && 0.0 <= rlim && start <= |s|
    requires forall k :: 0 <= k < start ==> s[k].lat < ref.lat - rlim
    ensures start <= start' <= |s| && forall k :: 0 <= k < start' ==> s[k].lat < ref.lat - rlim
    ensures match' == Brightest(s, ref, rlim, |s|)
  {
    hide Within;
    var latmin, latmax := ref.lat - rlim, ref.lat + rlim;
    match' := None;
    var samp2 := start;
    while samp2 < |s| && s[samp2].lat < latmin
      invariant start <= samp2 <= |s| && forall k :: 0 <= k < samp2 ==> s[k].lat < latmin
    {
      samp2 := samp2 + 1;
    }
    start' := samp2;
    forall k | 0 <= k < samp2 ensures !Within(ref, s[k], rlim) {
      NotBelow(ref, s[k], rlim);
    }
    SkipsBelow(s, ref, rlim, samp2);
    while samp2 < |s| && s[samp2].lat < latmax
      invariant start' <= samp2 <= |s| && match' == Brightest(s, ref, rlim, samp2)
    {
      if Reaches(ref, s[samp2], rlim) && (match' == None || s[samp2].flux > s[match'.value].flux) {
        match' := Some(samp2);
      }
      samp2 := samp2 + 1;
    }
    forall k | samp2 <= k < |s| ensures !Within(ref, s[k], rlim) {
      NotAbove(ref, s[k], rlim);
    }
    SkipsAbove(s, ref, rlim, samp2, |s|);
  }

  /** `r2<r2min`, as the loop computes it. */
  function Reaches(ref: Source, s: Source, rlim: real): (b: bool)
    ensures b == Within(ref, s, rlim)
  {
    var r2min, dlng12, dlat12 := rlim * rlim, s.lng - ref.lng, s.lat - ref.lat;
    dlng12 * dlng12 + dlat12 * dlat12 < r2min
  }

  lemma NotBelow(ref: Source, s: Source, rlim: real)
    requires 0.0 <= rlim && s.lat < ref.lat - rlim
    ensures !Within(ref, s, rlim)
  {
    if Within(ref, s, rlim) {
      InBand(ref, s, rlim);
    }
  }

  lemma NotAbove(ref: Source, s: Source, rlim: real)
    requires 0.0 <= rlim && s.lat >= ref.lat + rlim
    ensures !Within(ref, s, rlim)
  {
    if Within(ref, s, rlim) {
      InBand(ref, s, rlim);
    }
  }

  /** The loop over the references: with a start that never goes back, every reference gets the match of a full scan. */
  method Sweep(refs: seq<Source>, s: seq<Source>, rlim: real) returns (matches: seq<Option<nat>>)
    requires ByLat(refs) && ByLat(s) && 0.0 <= rlim
    ensures |matches| == |refs| && forall i :: 0 <= i < |refs| ==> matches[i] == Brightest(s, refs[i], rlim, |s|)
    ensures forall i :: 0 <= i < |refs| ==> Matches(s, refs[i], rlim, matches[i])
  {
    matches := [];
    var start := 0;
    for i := 0 to |refs|
      invariant |matches| == i && forall j :: 0 <= j < i ==> matches[j] == Brightest(s, refs[j], rlim, |s|)
      invariant start <= |s| && forall k :: 0 <= k < start && i < |refs| ==> s[k].lat < refs[i].lat - rlim
    {
      var one;
      start, one := MatchOne(s, refs[i], rlim, start);
      matches := matches + [one];
    }
    hide Brightest, Matches;
    forall i | 0 <= i < |refs| ensures Matches(s, refs[i], rlim, matches[i]) {
      BrightestMatches(s, refs[i], rlim);
    }
  }
}
