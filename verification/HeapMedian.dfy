// The median by heap sort (dhmedian, scamp/src/field.c). Places count from 1, as there.

module HeapMedian {
  import opened Medians

  /** Below place `lo` and up to place `hi`, every element but the sons of `hole` is at most its father. */
  ghost predicate Heap(s: seq<real>, lo: int, hi: int, hole: int) {
    && 1 <= lo && hi <= |s|
    && forall c :: 2 * lo <= c <= hi && c / 2 != hole ==> s[c - 1] <= s[c / 2 - 1]
  }

  /** The sons of `hole` are at most its father. */
  ghost predicate Bridged(s: seq<real>, lo: int, hi: int, hole: int)
    requires 1 <= lo && hi <= |s|
  {
    forall c :: 2 * lo <= c <= hi && c / 2 == hole && hole / 2 >= lo ==> s[c - 1] <= s[hole / 2 - 1]
  }

  /** From place `ir` + 1 on, every element is at least all elements before it. */
  ghost predicate Tail(s: seq<real>, ir: int) {
    forall i, j :: 0 <= i < j < |s| && j >= ir ==> s[i] <= s[j]
  }

  lemma {:induction false} RootIsLargest(s: seq<real>, hi: int, c: int)
    requires Heap(s, 1, hi, 0) && 1 <= c <= hi
    ensures s[c - 1] <= s[0]
    decreases c
  {
    if c > 1 {
      RootIsLargest(s, hi, c / 2);
    }
  }

  function Swapped(s: seq<real>, i: int, j: int): seq<real>
    requires 1 <= i <= |s| && 1 <= j <= |s|
  {
    s[i - 1 := s[j - 1]][j - 1 := s[i - 1]]
  }

  ghost predicate SonsAtMost(s: seq<real>, i: int, hi: int, x: real)
    requires 1 <= i && hi <= |s|
  {
    forall c :: 2 * i <= c <= hi && c / 2 == i ==> s[c - 1] <= x
  }

  lemma SonsLess(s: seq<real>, i: int, hi: int, x: real, y: real)
    requires 1 <= i && hi <= |s| && SonsAtMost(s, i, hi, x) && x <= y
    ensures SonsAtMost(s, i, hi, y)
  {
  }

  /** The larger son moves up. */
  lemma SonMovesUp(v: seq<real>, lo: int, hi: int, i: int, j: int)
    requires Heap(v, lo, hi, i) && Bridged(v, lo, hi, i) && lo <= i && j / 2 == i && 2 <= j <= hi
    requires v[i - 1] < v[j - 1] && SonsAtMost(v, i, hi, v[j - 1])
    ensures Heap(Swapped(v, i, j), lo, hi, j) && Bridged(Swapped(v, i, j), lo, hi, j)
  {
    var v' := Swapped(v, i, j);
    forall c | 2 * lo <= c <= hi && c / 2 != j ensures v'[c - 1] <= v'[c / 2 - 1] {
      assert c / 2 >= lo;
      if c == i {
      } else if c / 2 == i {
      }
    }
  }

  /** No son is larger: the heap is in order. */
  lemma Settled(v: seq<real>, lo: int, hi: int, i: int)
    requires Heap(v, lo, hi, i) && lo <= i <= hi && SonsAtMost(v, i, hi, v[i - 1])
    ensures Heap(v, lo, hi, 0)
  {
  }

  /** The array, with `rra` in the hole at place `i`, holds `v`. */
  ghost predicate Holds(ra: array<real>, i: int, rra: real, v: seq<real>)
    reads ra
  {
    1 <= i <= ra.Length == |v| && v[i - 1] == rra && forall x :: 0 <= x < |v| && x != i - 1 ==> ra[x] == v[x]
  }

  /** The inner loop of dhmedian with the assignment after it: `rra` finds its place below `l`. */
  method Sift(ra: array<real>, l: int, ir: int, rra: real, ghost was: seq<real>)
    requires 1 <= l <= ir <= ra.Length && Holds(ra, l, rra, was) && Heap(was, l, ir, l)
    modifies ra
    ensures Heap(ra[..], l, ir, 0) && Window(was, ra[..], 0, ir - 1)
  {
    hide Heap, Bridged, Window, SonsAtMost, Swapped;
    var i := l;
    var j := 2 * l;
    ghost var v := was;
    WindowRefl(v, 0, ir - 1);
    NothingToBridge(v, l, ir);
    while j <= ir
      invariant l <= i <= ir && Holds(ra, i, rra, v)
      invariant Heap(v, l, ir, i) && Bridged(v, l, ir, i) && Window(was, v, 0, ir - 1)
      invariant j == 2 * i || (j == ir + 1 && SonsAtMost(v, i, ir, rra))
      decreases ir + 1 - j
    {
      assert 1 <= i && j == 2 * i;
      if j < ir && ra[j - 1] < ra[j] {
        j := j + 1;
      }
      LargerSon(v, i, j, ir);
      if rra < ra[j - 1] {
        SonMovesUp(v, l, ir, i, j);
        SwappedWindow(was, v, i, j, ir);
        MoveUp(ra, i, j, rra, v);
        v := Swapped(v, i, j);
        i := j;
        j := j + i;
      } else {
        SonsLess(v, i, ir, v[j - 1], rra);
        j := ir + 1;
      }
    }
    NoSons(v, i, j, ir, rra);
    Settled(v, l, ir, i);
    PutBack(ra, i, rra, v);
  }

  lemma NoSons(v: seq<real>, i: int, j: int, ir: int, x: real)
    requires 1 <= i && ir <= |v| && j > ir && (j == 2 * i || SonsAtMost(v, i, ir, x))
    ensures SonsAtMost(v, i, ir, x)
  {
  }

  /** `ra[i] = ra[j]`: the hole is at `j` now. */
  method MoveUp(ra: array<real>, i: int, j: int, rra: real, ghost v: seq<real>)
    requires Holds(ra, i, rra, v) && 1 <= j <= ra.Length && i != j
    modifies ra
    ensures Holds(ra, j, rra, Swapped(v, i, j))
  {
    ra[i - 1] := ra[j - 1];
  }

  method PutBack(ra: array<real>, i: int, rra: real, ghost v: seq<real>)
    requires Holds(ra, i, rra, v)
    modifies ra
    ensures ra[..] == v
  {
    ra[i - 1] := rra;
  }

  lemma NothingToBridge(v: seq<real>, l: int, ir: int)
    requires 1 <= l && ir <= |v|
    ensures Bridged(v, l, ir, l)
  {
  }

  lemma LargerSon(v: seq<real>, i: int, j: int, ir: int)
    requires 1 <= i && 2 * i <= j <= ir <= |v| && j <= 2 * i + 1
    requires if j == 2 * i then j == ir || v[j] <= v[j - 1] else v[j - 2] < v[j - 1]
    ensures j / 2 == i && SonsAtMost(v, i, ir, v[j - 1])
  {
  }

  lemma SwappedWindow(s: seq<real>, v: seq<real>, i: int, j: int, hi: int)
    requires Window(s, v, 0, hi - 1) && 1 <= i <= hi && 1 <= j <= hi
    ensures Window(s, Swapped(v, i, j), 0, hi - 1)
  {
    SwapWindow(v, i - 1, j - 1, 0, hi - 1);
  }

  /** The root goes behind the heap, and its last element into the hole at the root. */
  lemma RootMovesOut(s: seq<real>, was: seq<real>, ir: int)
    requires Sorting(s, was, 1, ir) && 2 <= ir <= |s|
    ensures var s' := Swapped(s, 1, ir); Heap(s', 1, ir - 1, 1) && Tail(s', ir - 1) && multiset(s') == multiset(was)
  {
    var s' := Swapped(s, 1, ir);
    forall x | 0 <= x < ir ensures s[x] <= s[0] {
      RootIsLargest(s, ir, x + 1);
    }
    SwapWindow(s, 0, ir - 1, 0, |s| - 1);
    WindowPermutes(s, s', 0, |s| - 1);
    TailGrows(s, s', ir);
  }

  lemma TailGrows(s: seq<real>, s': seq<real>, ir: int)
    requires Tail(s, ir) && 2 <= ir <= |s| && s' == Swapped(s, 1, ir) && forall x :: 0 <= x < ir ==> s[x] <= s[0]
    ensures Tail(s', ir - 1)
  {
    forall i, j | 0 <= i < j < |s| && j >= ir - 1 ensures s'[i] <= s'[j] {
      assert s'[j] == if j == ir - 1 then s[0] else s[j];
      assert s'[i] == if i == 0 then s[ir - 1] else if i == ir - 1 then s[0] else s[i];
    }
  }

  lemma TailInWindow(s: seq<real>, s': seq<real>, ir: int)
    requires Tail(s, ir) && 1 <= ir <= |s| && Window(s, s', 0, ir - 1)
    ensures Tail(s', ir)
  {
    hide Window;
    var from := Origins(s, s', 0, ir - 1);
  }

  /** The root leaves the heap for the last place, and makes a hole. */
  method TakeRoot(ra: array<real>, ir: int) returns (rra: real)
    requires 2 <= ir <= ra.Length
    modifies ra
    ensures Holds(ra, 1, rra, Swapped(old(ra[..]), 1, ir))
  {
    rra := ra[ir - 1];
    ra[ir - 1] := ra[0];
  }

  /** dhmedian: for one element or more it is the median, and leaves the array sorted. */
  method DhMedian(ra: array<real>) returns (r: real)
    requires ra.Length > 0
    modifies ra
    ensures Ascending(ra[..]) && multiset(ra[..]) == multiset(old(ra[..]))
    ensures r == Median(old(ra[..]))
    ensures var n := ra.Length; r == if n % 2 == 1 then ra[n / 2] else (ra[n / 2 - 1] + ra[n / 2]) / 2.0
  {
    hide Heap, Tail, Window, Sorted, Swapped, Median, Sorting;
    var n := ra.Length;
    ghost var was := ra[..];
    if n < 2 {
      MedianOfOne(was);
      return ra[0];
    }
    hide Ascending;
    var ir := n;
    var l := n / 2 + 1;
    NoFathers(was, l, n);
    while true
      invariant 1 <= l && 2 <= ir <= n && l <= ir && (l > 1 ==> ir == n)
      invariant Sorting(ra[..], was, l, ir)
      decreases l + ir
    {
      var rra: real;
      ghost var s, v := ra[..], ra[..];
      if l > 1 {
        l := l - 1;
        rra := ra[l - 1];
        OneMoreFather(s, was, l, ir);
      } else {
        rra := TakeRoot(ra, ir);
        RootMovesOut(s, was, ir);
        v := Swapped(s, 1, ir);
        ir := ir - 1;
        if ir == 1 {
          PutBack(ra, 1, rra, v);
          SortedAtEnd(was, ra[..]);
          return if n % 2 == 1 then ra[n / 2] else (ra[n / 2 - 1] + ra[n / 2]) / 2.0;
        }
      }
      Sift(ra, l, ir, rra, v);
      Sifted(v, ra[..], was, l, ir);
    }
  }

  /** Between two turns of the loop: a heap from `l` to `ir`, and sorted behind. */
  ghost predicate Sorting(s: seq<real>, was: seq<real>, l: int, ir: int) {
    Heap(s, l, ir, 0) && Tail(s, ir) && multiset(s) == multiset(was)
  }

  lemma Sifted(v: seq<real>, s: seq<real>, was: seq<real>, l: int, ir: int)
    requires Heap(s, l, ir, 0) && Window(v, s, 0, ir - 1) && Tail(v, ir) && multiset(v) == multiset(was)
      && 1 <= ir <= |v|
    ensures Sorting(s, was, l, ir)
  {
    hide Heap, Window, Tail;
    WindowPermutes(v, s, 0, ir - 1);
    TailInWindow(v, s, ir);
  }

  lemma NoFathers(s: seq<real>, l: int, n: int)
    requires n == |s| >= 2 && l == n / 2 + 1
    ensures Sorting(s, s, l, n)
  {
  }

  lemma OneMoreFather(s: seq<real>, was: seq<real>, l: int, ir: int)
    requires Sorting(s, was, l + 1, ir) && 1 <= l
    ensures Heap(s, l, ir, l) && Tail(s, ir) && multiset(s) == multiset(was)
  {
  }

  lemma SortedAtEnd(was: seq<real>, s: seq<real>)
    requires Tail(s, 1) && multiset(was) == multiset(s) && |s| >= 2
    ensures Ascending(s) && |was| == |s|
    ensures Median(was) == if |s| % 2 == 1 then s[|s| / 2] else (s[|s| / 2 - 1] + s[|s| / 2]) / 2.0
  {
    PlacedIsSorted(was, s, |s| / 2);
    PlacedIsSorted(was, s, |s| / 2 - 1);
  }
}
