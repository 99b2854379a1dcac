// The two medians: quick-select (fast_median, scamp/src/misc.c) and heap sort (dhmedian, scamp/src/field.c).

module Medians {

  const BIG: real := 1000000000000000000000000000000.0

  // ---- What the median is ----

  ghost predicate Ascending(s: seq<real>) {
    forall i, j :: 0 <= i < j < |s| ==> s[i] <= s[j]
  }

  function Insert(x: real, s: seq<real>): seq<real> {
    if s == [] then [x] else if x <= s[0] then [x] + s else [s[0]] + Insert(x, s[1..])
  }

  function Sorted(s: seq<real>): seq<real> {
    if s == [] then [] else Insert(s[0], Sorted(s[1..]))
  }

  /** The middle element, or the average of the two in the middle. */
  function Median(s: seq<real>): real
    requires |s| > 0
  {
    SortedIsSorted(s);
    var t, n := Sorted(s), |s|;
    if n % 2 == 1 then t[n / 2] else (t[n / 2 - 1] + t[n / 2]) / 2.0
  }

  lemma {:induction false} InsertAdds(x: real, s: seq<real>)
    ensures multiset(Insert(x, s)) == multiset{x} + multiset(s) && |Insert(x, s)| == |s| + 1
    ensures s != [] ==> Insert(x, s)[0] == if x <= s[0] then x else s[0]
    ensures s == [] ==> Insert(x, s) == [x]
  {
    if s != [] {
      assert s == [s[0]] + s[1..];
      InsertAdds(x, s[1..]);
    }
  }

  lemma {:induction false} InsertIsSorted(x: real, s: seq<real>)
    requires Ascending(s)
    ensures Ascending(Insert(x, s))
  {
    if s != [] && x > s[0] {
      InsertIsSorted(x, s[1..]);
      InsertAdds(x, s[1..]);
      LowestFirst(s[0], Insert(x, s[1..]));
    }
  }

  lemma LowestFirst(x: real, s: seq<real>)
    requires Ascending(s) && (s != [] ==> x <= s[0])
    ensures Ascending([x] + s)
  {
  }

  lemma {:induction false} SortedIsSorted(s: seq<real>)
    ensures Ascending(Sorted(s)) && multiset(Sorted(s)) == multiset(s) && |Sorted(s)| == |s|
  {
    if s != [] {
      assert s == [s[0]] + s[1..];
      SortedIsSorted(s[1..]);
      InsertIsSorted(s[0], Sorted(s[1..]));
      InsertAdds(s[0], Sorted(s[1..]));
    }
  }

  // ---- Order statistics ----

  /** How many elements are below `v`, or not above it. */
  function Count(s: seq<real>, v: real, strict: bool): nat {
    if s == [] then 0 else Count(s[1..], v, strict) + if s[0] < v || (!strict && s[0] == v) then 1 else 0
  }

  lemma {:induction false} CountAdds(s: seq<real>, t: seq<real>, v: real, strict: bool)
    ensures Count(s + t, v, strict) == Count(s, v, strict) + Count(t, v, strict)
  {
    if s == [] {
      assert s + t == t;
    } else {
      assert (s + t)[1..] == s[1..] + t;
      CountAdds(s[1..], t, v, strict);
    }
  }

  lemma OneLess(s: seq<real>, j: nat)
    requires j < |s|
    ensures multiset(s[..j] + s[j + 1..]) == multiset(s) - multiset{s[j]}
  {
    assert s == s[..j] + [s[j]] + s[j + 1..];
  }

  lemma {:induction false} CountPermuted(s: seq<real>, t: seq<real>, v: real, strict: bool)
    requires multiset(s) == multiset(t)
    ensures Count(s, v, strict) == Count(t, v, strict)
  {
    if s == [] {
      assert |multiset(t)| == 0;
    } else {
      assert s[0] in multiset(t);
      var j :| 0 <= j < |t| && t[j] == s[0];
      var rest := t[..j] + t[j + 1..];
      OneLess(t, j);
      OneLess(s, 0);
      assert s[..0] + s[1..] == s[1..];
      CountPermuted(s[1..], rest, v, strict);
      CountAt(t, j, v, strict);
    }
  }

  lemma CountAt(t: seq<real>, j: nat, v: real, strict: bool)
    requires j < |t|
    ensures Count(t, v, strict) == Count(t[..j] + t[j + 1..], v, strict) + if t[j] < v
      || (!strict && t[j] == v) then 1 else 0
  {
    assert t == t[..j] + ([t[j]] + t[j + 1..]);
    CountAdds(t[..j], t[j + 1..], v, strict);
    CountAdds(t[..j], [t[j]] + t[j + 1..], v, strict);
    assert ([t[j]] + t[j + 1..])[1..] == t[j + 1..];
  }

  lemma {:induction false} CountNone(s: seq<real>, v: real)
    requires forall i :: 0 <= i < |s| ==> v <= s[i]
    ensures Count(s, v, true) == 0
  {
    if s != [] {
      CountNone(s[1..], v);
    }
  }

  lemma {:induction false} CountAll(s: seq<real>, v: real)
    requires forall i :: 0 <= i < |s| ==> s[i] <= v
    ensures Count(s, v, false) == |s|
  {
    if s != [] {
      CountAll(s[1..], v);
    }
  }

  lemma {:induction false} CountBounds(s: seq<real>, v: real, w: real)
    ensures Count(s, v, true) <= |s|
    ensures v < w ==> Count(s, v, false) <= Count(s, w, true)
  {
    if s != [] {
      CountBounds(s[1..], v, w);
    }
  }

  /** Nothing before place `k` is larger, nothing after it is smaller, than the element there. */
  ghost predicate Placed(s: seq<real>, k: int) {
    && 0 <= k < |s|
    && (forall i :: 0 <= i < k ==> s[i] <= s[k])
    && (forall i :: k < i < |s| ==> s[k] <= s[i])
  }

  lemma PlacedCounts(s: seq<real>, k: nat)
    requires Placed(s, k)
    ensures Count(s, s[k], true) <= k < Count(s, s[k], false)
  {
    var v := s[k];
    assert s == s[..k] + s[k..];
    CountAdds(s[..k], s[k..], v, true);
    CountBounds(s[..k], v, v);
    CountNone(s[k..], v);
    assert s == s[..k + 1] + s[k + 1..];
    CountAdds(s[..k + 1], s[k + 1..], v, false);
    CountAll(s[..k + 1], v);
  }

  /** The element at a place is the same in any two permutations in which it is placed. */
  lemma PlacedUnique(s: seq<real>, t: seq<real>, k: nat)
    requires multiset(s) == multiset(t) && Placed(s, k) && Placed(t, k)
    ensures s[k] == t[k]
  {
    PlacedCounts(s, k);
    PlacedCounts(t, k);
    CountPermuted(s, t, s[k], false);
    CountPermuted(s, t, t[k], false);
    CountBounds(t, s[k], t[k]);
    CountBounds(s, t[k], s[k]);
    CountPermuted(s, t, s[k], true);
    CountPermuted(s, t, t[k], true);
  }

  /** The placed element is the one of the sorted sequence. */
  lemma PlacedIsSorted(s: seq<real>, t: seq<real>, k: nat)
    requires multiset(s) == multiset(t) && Placed(t, k)
    ensures |Sorted(s)| == |t| == |s| && t[k] == Sorted(s)[k]
  {
    SortedIsSorted(s);
    assert |multiset(s)| == |multiset(t)|;
    PlacedUnique(t, Sorted(s), k);
  }

  // ---- Quick-select ----

  /** Only elements in [low, high] were moved, among themselves. */
  ghost predicate Window(s: seq<real>, s': seq<real>, low: int, high: int) {
    && |s| == |s'| && 0 <= low <= high + 1 <= |s|
    && s[..low] == s'[..low] && s[high + 1..] == s'[high + 1..]
    && multiset(s[low..high + 1]) == multiset(s'[low..high + 1])
  }

  lemma WindowMember(s: seq<real>, s': seq<real>, low: int, high: int, j: int) returns (j': int)
    requires Window(s, s', low, high) && low <= j <= high
    ensures low <= j' <= high && s[j'] == s'[j]
  {
    var w, w' := s[low..high + 1], s'[low..high + 1];
    assert w'[j - low] in multiset(w');
    assert s'[j] in multiset(w);
    var i :| 0 <= i < |w| && w[i] == s'[j];
    j' := low + i;
  }

  lemma WindowOutside(s: seq<real>, s': seq<real>, low: int, high: int, j: int)
    requires Window(s, s', low, high) && 0 <= j < |s| && (j < low || j > high)
    ensures s'[j] == s[j]
  {
    if j < low {
      assert s[..low][j] == s'[..low][j];
    } else {
      assert s[high + 1..][j - high - 1] == s'[high + 1..][j - high - 1];
    }
  }

  lemma WindowPermutes(s: seq<real>, s': seq<real>, low: int, high: int)
    requires Window(s, s', low, high)
    ensures multiset(s) == multiset(s')
  {
    assert s == s[..low] + s[low..high + 1] + s[high + 1..];
    assert s' == s'[..low] + s'[low..high + 1] + s'[high + 1..];
  }

  lemma SwapWindow(s: seq<real>, i: int, j: int, low: int, high: int)
    requires 0 <= low <= i <= high < |s| && low <= j <= high
    ensures Window(s, s[i := s[j]][j := s[i]], low, high)
  {
    var w, s' := s[low..high + 1], s[i := s[j]][j := s[i]];
    assert s'[low..high + 1] == w[i - low := w[j - low]][j - low := w[i - low]];
  }

  /** MEDIAN_SWAP, inside a window. */
  method Swap(arr: array<real>, i: int, j: int, ghost was: seq<real>, ghost low: int, ghost high: int)
    requires 0 <= low <= i <= high < arr.Length && low <= j <= high && Window(was, arr[..], low, high)
    modifies arr
    ensures arr[i] == old(arr[j]) && arr[j] == old(arr[i])
    ensures forall k :: 0 <= k < arr.Length && k != i && k != j ==> arr[k] == old(arr[k])
    ensures Window(was, arr[..], low, high)
  {
    SwapWindow(arr[..], i, j, low, high);
    ghost var s := arr[..];
    var val := arr[i];
    arr[i] := arr[j];
    arr[j] := val;
    assert arr[..] == s[i := s[j]][j := s[i]];
  }

  /** "Find median of low, middle and high items", and put it first and the lowest second. */
  method MedianOfThree(arr: array<real>, alow: int, ahigh: int)
    requires 0 <= alow && alow + 1 < ahigh < arr.Length
    modifies arr
    ensures arr[alow + 1] <= arr[alow] <= arr[ahigh] && Window(old(arr[..]), arr[..], alow, ahigh)
  {
    hide Window;
    ghost var was := arr[..];
    WindowRefl(was, alow, ahigh);
    var amiddle := alow + (ahigh - alow) / 2;
    if arr[amiddle] > arr[ahigh] {
      Swap(arr, amiddle, ahigh, was, alow, ahigh);
    }
    if arr[alow] > arr[ahigh] {
      Swap(arr, alow, ahigh, was, alow, ahigh);
    }
    if arr[amiddle] > arr[alow] {
      Swap(arr, amiddle, alow, was, alow, ahigh);
    }
    Swap(arr, amiddle, alow + 1, was, alow, ahigh);
  }

  lemma WindowRefl(s: seq<real>, low: int, high: int)
    requires 0 <= low <= high + 1 <= |s|
    ensures Window(s, s, low, high)
  {
  }

  /** "Nibble from each end towards middle, swapping items when stuck", then put the pivot in its place. */
  method Partition(arr: array<real>, alow: int, ahigh: int) returns (all: int, ahh: int)
    requires 0 <= alow && alow + 1 < ahigh < arr.Length && arr[alow + 1] <= arr[alow] <= arr[ahigh]
    modifies arr
    ensures alow < ahh < all <= ahigh && ahh < ahigh && Window(old(arr[..]), arr[..], alow, ahigh)
    ensures forall k :: alow <= k < all ==> arr[k] <= arr[ahh]
    ensures forall k :: ahh <= k <= ahigh ==> arr[ahh] <= arr[k]
  {
    hide Window;
    ghost var was := arr[..];
    WindowRefl(was, alow, ahigh);
    all, ahh := alow + 1, ahigh;
    var p := arr[alow];
    while true
      invariant alow + 1 <= all <= ahh <= ahigh && (all == ahh ==> alow + 2 <= all && ahh < ahigh)
      invariant arr[alow] == p && (forall k :: alow + 1 <= k <= all ==> arr[k] <= p)
        && (forall k :: ahh <= k <= ahigh ==> p <= arr[k])
      invariant Window(was, arr[..], alow, ahigh)
      decreases ahh - all
    {
      ghost var all0, ahh0 := all, ahh;
      all := all + 1;
      while arr[alow] > arr[all]
        invariant all0 < all <= ahigh && (all0 < ahh0 ==> all <= ahh0) && (all0 == ahh0 ==> all == ahh0 + 1)
        invariant forall k :: alow + 1 <= k < all ==> arr[k] <= p
        decreases ahigh - all
      {
        all := all + 1;
      }
      ahh := ahh - 1;
      while arr[ahh] > arr[alow]
        invariant alow < ahh < ahh0 && (all0 < ahh0 ==> all0 <= ahh) && (all0 == ahh0 ==> ahh == all0 - 1)
        invariant forall k :: ahh < k <= ahigh ==> p <= arr[k]
        decreases ahh
      {
        ahh := ahh - 1;
      }
      if ahh < all {
        break;
      }
      Swap(arr, all, ahh, was, alow, ahigh);
    }
    Swap(arr, alow, ahh, was, alow, ahigh);
  }

  /** Where the search stands: elements before `alow` are not larger, elements after `ahigh` not smaller, than the
      others, and place `med` is between the two or already has its element. */
  ghost predicate Selecting(s: seq<real>, alow: int, ahigh: int, med: int) {
    && 0 <= alow && ahigh < |s| && 0 <= med < |s|
    && (forall i, j :: 0 <= i < alow <= j < |s| ==> s[i] <= s[j])
    && (forall i, j :: 0 <= i <= ahigh < j < |s| ==> s[i] <= s[j])
    && (alow <= med <= ahigh || Placed(s, med))
  }

  /** Moves inside the window keep it. */
  lemma SelectingInWindow(s: seq<real>, s': seq<real>, alow: int, ahigh: int, med: int)
    requires Selecting(s, alow, ahigh, med) && alow <= ahigh && Window(s, s', alow, ahigh)
    ensures Selecting(s', alow, ahigh, med)
  {
    hide Window;
    var from := Origins(s, s', alow, ahigh);
    assert |s'| == |s| by { WindowSize(s, s', alow, ahigh); }
    if !(alow <= med <= ahigh) {
      assert from[med] == med;
    }
  }

  lemma WindowSize(s: seq<real>, s': seq<real>, low: int, high: int)
    requires Window(s, s', low, high)
    ensures |s| == |s'|
  {
  }

  /** Where every element came from. */
  lemma Origins(s: seq<real>, s': seq<real>, low: int, high: int) returns (from: seq<int>)
    requires Window(s, s', low, high)
    ensures |from| == |s| == |s'|
    ensures forall j :: 0 <= j < |s| ==> 0 <= from[j] < |s| && s'[j] == s[from[j]]
    ensures forall j :: 0 <= j < |s| ==> if low <= j <= high then low <= from[j] <= high else from[j] == j
  {
    WindowSize(s, s', low, high);
    from := [];
    while |from| < |s|
      invariant |from| <= |s|
      invariant forall j :: 0 <= j < |from| ==> 0 <= from[j] < |s| && s'[j] == s[from[j]]
      invariant forall j :: 0 <= j < |from| ==> if low <= j <= high then low <= from[j] <= high else from[j] == j
    {
      var j := |from|;
      if low <= j <= high {
        var j' := WindowMember(s, s', low, high, j);
        from := from + [j'];
      } else {
        WindowOutside(s, s', low, high, j);
        from := from + [j];
      }
    }
  }

  /** "Re-set active partition". */
  lemma SelectingPart(s: seq<real>, alow: int, ahigh: int, med: int, all: int, ahh: int)
    requires Selecting(s, alow, ahigh, med) && alow < ahh < all <= ahigh
    requires forall k :: alow <= k < all ==> s[k] <= s[ahh]
    requires forall k :: ahh <= k <= ahigh ==> s[ahh] <= s[k]
    ensures Selecting(s, if ahh <= med then all else alow, if ahh >= med then ahh - 1 else ahigh, med)
  {
    if alow <= med <= ahigh && ahh <= med < all {
      assert Placed(s, med);
    }
  }

  lemma SelectedAtEnd(s: seq<real>, alow: int, ahigh: int, med: int)
    requires Selecting(s, alow, ahigh, med) && ahigh <= alow + 1 && (ahigh == alow + 1 ==> s[alow] <= s[ahigh])
    ensures Placed(s, med)
  {
  }

  /** The search of fast_median, for three elements or more. */
  method Select(arr: array<real>, amedian: int)
    requires 0 <= amedian < arr.Length
    modifies arr
    ensures Placed(arr[..], amedian) && multiset(arr[..]) == multiset(old(arr[..]))
  {
    hide Window, Selecting, Placed;
    var alow, ahigh := 0, arr.Length - 1;
    SelectingFirst(arr[..], amedian);
    while ahigh > alow + 1
      invariant 0 <= alow && ahigh < arr.Length
      invariant Selecting(arr[..], alow, ahigh, amedian) && multiset(arr[..]) == multiset(old(arr[..]))
      decreases ahigh - alow
    {
      ghost var s := arr[..];
      MedianOfThree(arr, alow, ahigh);
      ghost var s' := arr[..];
      WindowPermutes(s, s', alow, ahigh);
      SelectingInWindow(s, s', alow, ahigh, amedian);
      var all, ahh := Partition(arr, alow, ahigh);
      WindowPermutes(s', arr[..], alow, ahigh);
      SelectingInWindow(s', arr[..], alow, ahigh, amedian);
      SelectingPart(arr[..], alow, ahigh, amedian, all, ahh);
      if ahh <= amedian {
        alow := all;
      }
      if ahh >= amedian {
        ahigh := ahh - 1;
      }
    }
    if ahigh == alow + 1 && arr[alow] > arr[ahigh] {
      ghost var s := arr[..];
      WindowRefl(s, alow, ahigh);
      Swap(arr, alow, ahigh, s, alow, ahigh);
      WindowPermutes(s, arr[..], alow, ahigh);
      SelectingInWindow(s, arr[..], alow, ahigh, amedian);
    }
    SelectedAtEnd(arr[..], alow, ahigh, amedian);
  }

  lemma SelectingFirst(s: seq<real>, med: int)
    requires 0 <= med < |s|
    ensures Selecting(s, 0, |s| - 1, med)
  {
  }

  /** The largest of the first `h` elements is the one before the middle of the sorted sequence. */
  lemma LowerMiddle(was: seq<real>, s: seq<real>, h: nat, m: nat)
    requires multiset(was) == multiset(s) && 0 < h < |s| && Placed(s, h) && m < h && forall i :: 0 <= i < h ==>
      s[i] <= s[m]
    ensures |Sorted(was)| == |was| == |s| && s[h] == Sorted(was)[h] && s[m] == Sorted(was)[h - 1]
  {
    hide Placed, Window, Sorted;
    PlacedIsSorted(was, s, h);
    var s' := s[m := s[h - 1]][h - 1 := s[m]];
    SwapWindow(s, m, h - 1, 0, |s| - 1);
    WindowPermutes(s, s', 0, |s| - 1);
    LargestPlaced(s, h, m, s');
    PlacedIsSorted(was, s', h - 1);
  }

  lemma LargestPlaced(s: seq<real>, h: nat, m: nat, s': seq<real>)
    requires 0 < h < |s| && Placed(s, h) && m < h && forall i :: 0 <= i < h ==> s[i] <= s[m]
    requires s' == s[m := s[h - 1]][h - 1 := s[m]]
    ensures Placed(s', h - 1) && s'[h - 1] == s[m]
  {
    forall i | 0 <= i < |s| ensures i < h - 1 ==> s'[i] <= s[m]
      ensures i > h - 1 ==> s[m] <= s'[i]
    {
      assert s'[i] == if i == h - 1 then s[m] else if i == m then s[h - 1] else s[i];
    }
  }

  lemma {:induction false} LargestOf(s: seq<real>, h: nat) returns (m: nat)
    requires 0 < h <= |s|
    ensures m < h && forall i :: 0 <= i < h ==> s[i] <= s[m]
  {
    if h == 1 {
      m := 0;
    } else {
      m := LargestOf(s, h - 1);
      m := if s[m] < s[h - 1] then h - 1 else m;
    }
  }

  /** What the loop over the lower half finds. */
  ghost predicate Scanned(s: seq<real>, upto: nat, valmax2: real, nless: nat, valmax: real) {
    && upto <= |s| && nless <= upto && -BIG <= valmax
    && (nless == upto <==> forall i :: 0 <= i < upto ==> s[i] < valmax2)
    && (forall i :: 0 <= i < upto && s[i] < valmax2 ==> s[i] <= valmax)
    && (valmax == -BIG || exists i :: 0 <= i < upto && s[i] < valmax2 && s[i] == valmax)
  }

  lemma ScannedMore(s: seq<real>, i: nat, valmax2: real, nless: nat, valmax: real)
    requires Scanned(s, i, valmax2, nless, valmax) && i < |s|
    ensures var less := s[i] < valmax2;
      Scanned(s, i + 1, valmax2, if less then nless + 1 else nless, if less && s[i] > valmax then s[i] else valmax)
  {
  }

  /** "Even case". */
  method AverageMiddle(arr: array<real>, n: nat, ghost was: seq<real>) returns (r: real)
    requires n == arr.Length && n % 2 == 0 && n >= 2 && Placed(arr[..], n / 2) && multiset(arr[..]) == multiset(was)
    ensures |Sorted(was)| == n
    ensures var low, up := Sorted(was)[n / 2 - 1], Sorted(was)[n / 2];
      && low <= up && r == if low == up then up else (up + if low > -BIG then low else -BIG) / 2.0
  {
    hide Placed;
    var valmax2 := arr[n / 2];
    var valmax := -BIG;
    var nless := 0;
    ghost var s := arr[..];
    for i := 0 to n / 2
      invariant Scanned(s, i, valmax2, nless, valmax)
    {
      ScannedMore(s, i, valmax2, nless, valmax);
      var val := arr[i];
      if val < valmax2 {
        nless := nless + 1;
        if val > valmax {
          valmax := val;
        }
      }
    }
    r := if nless < n / 2 then arr[n / 2] else (arr[n / 2] + valmax) / 2.0;
    AverageIs(was, s, n / 2, nless, valmax);
  }

  lemma AverageIs(was: seq<real>, s: seq<real>, h: nat, nless: nat, valmax: real)
    requires multiset(was) == multiset(s) && 0 < h < |s| && Placed(s, h) && Scanned(s, h, s[h], nless, valmax)
    ensures |Sorted(was)| == |s| && s[h] == Sorted(was)[h] && Sorted(was)[h - 1] <= Sorted(was)[h]
    ensures nless < h <==> Sorted(was)[h - 1] == Sorted(was)[h]
    ensures nless == h ==> valmax == if Sorted(was)[h - 1] > -BIG then Sorted(was)[h - 1] else -BIG
  {
    var m := LargestOf(s, h);
    LowerMiddle(was, s, h, m);
  }

  /** At least half of an even number of values, four or more, are below -BIG, and the two in the middle differ. */
  ghost predicate BelowRange(s: seq<real>) {
    SortedIsSorted(s);
    var n := |s|;
    n % 2 == 0 && n >= 4 && Sorted(s)[n / 2 - 1] < -BIG && Sorted(s)[n / 2 - 1] < Sorted(s)[n / 2]
  }

  /** Four values for which fast_median does not return the median: -BIG / 2 instead of -BIG. */
  lemma BelowRangeInput()
    ensures var s := [-2.0 * BIG, -2.0 * BIG, 0.0, 0.0];
      BelowRange(s) && Sorted(s) == s && Median(s) == -BIG && (Sorted(s)[2] - BIG) / 2.0 == -BIG / 2.0 != Median(s)
  {
    var s := [-2.0 * BIG, -2.0 * BIG, 0.0, 0.0];
    assert s[1..] == [-2.0 * BIG, 0.0, 0.0] && s[1..][1..] == [0.0, 0.0] && [0.0, 0.0][1..] == [0.0];
    assert Sorted([0.0, 0.0]) == [0.0, 0.0];
    assert Sorted(s[1..]) == s[1..];
    assert Sorted(s) == s;
  }

  /** The case of three elements. */
  method MiddleOfThree(arr: array<real>) returns (r: real)
    requires arr.Length == 3
    modifies arr
    ensures multiset(arr[..]) == multiset(old(arr[..])) && r == arr[1] && Placed(arr[..], 1)
  {
    hide Window;
    ghost var was := arr[..];
    WindowRefl(was, 0, 2);
    if arr[0] > arr[1] {
      Swap(arr, 0, 1, was, 0, 2);
    }
    if arr[1] > arr[2] {
      Swap(arr, 1, 2, was, 0, 2);
    }
    if arr[0] > arr[1] {
      Swap(arr, 0, 1, was, 0, 2);
    }
    WindowPermutes(was, arr[..], 0, 2);
    return arr[1];
  }

  /** fast_median: the median, except where half of the values are below the number that stands for minus infinity. */
  method FastMedian(arr: array<real>) returns (r: real)
    requires arr.Length > 0
    modifies arr
    ensures multiset(arr[..]) == multiset(old(arr[..]))
    ensures r == Median(old(arr[..])) <==> !BelowRange(old(arr[..]))
    ensures |Sorted(old(arr[..]))| == arr.Length
    ensures !BelowRange(old(arr[..])) ==> var t, n := Sorted(old(arr[..])), arr.Length;
      r == if n % 2 == 1 then t[n / 2] else (t[n / 2 - 1] + t[n / 2]) / 2.0
    ensures BelowRange(old(arr[..])) ==> r == (Sorted(old(arr[..]))[arr.Length / 2] - BIG) / 2.0
  {
    hide Placed, Sorted;
    var n := arr.Length;
    ghost var was := arr[..];
    SortedIsSorted(was);
    if n == 1 {
      MedianOfOne(was);
      return arr[0];
    } else if n == 2 {
      MedianOfTwo(was);
      return 0.5 * (arr[0] + arr[1]);
    } else if n == 3 {
      r := MiddleOfThree(arr);
      PlacedIsSorted(was, arr[..], 1);
      return;
    }
    Select(arr, n / 2);
    PlacedIsSorted(was, arr[..], n / 2);
    if n % 2 == 1 {
      return arr[n / 2];
    }
    r := AverageMiddle(arr, n, was);
  }

  lemma MedianOfOne(s: seq<real>)
    requires |s| == 1
    ensures Median(s) == s[0]
  {
    PlacedIsSorted(s, s, 0);
  }

  lemma MedianOfTwo(s: seq<real>)
    requires |s| == 2
    ensures Median(s) == (s[0] + s[1]) / 2.0
  {
    var t := if s[0] <= s[1] then s else [s[1], s[0]];
    assert s == [s[0], s[1]];
    PlacedIsSorted(s, t, 0);
    PlacedIsSorted(s, t, 1);
  }
}
