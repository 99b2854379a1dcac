// Deleting rows and columns of the normal-equation matrix in place
// (shrink_mat and the indexing of add_alphamat, scamp/src/astrsolve.c).

module ShrinkMat {

  // ---- Layouts ----

  /** Where row `r` of a packed upper triangle of order `n` starts. */
  function Start(n: int, r: nat): int {
    if r == 0 then 0 else Start(n, r - 1) + n - (r - 1)
  }

  /** Where column `c` of row `r` is; `c` may be one past the end of the row. */
  function Packed(n: int, r: nat, c: nat): int {
    Start(n, r) + c - r
  }

  /** The closed form. */
  lemma {:induction false} StartTwice(n: int, r: nat)
    ensures 2 * Start(n, r) == r * (2 * n - r + 1)
  {
    if r > 0 {
      StartTwice(n, r - 1);
    }
  }

  /** The expressions of shrink_mat and of add_alphamat, with the division of C on numbers that are not negative. */
  lemma StartAsWritten(n: nat, r: nat)
    requires r <= n
    ensures (2 * n - r + 1) * r / 2 == Start(n, r)
    ensures forall c: nat :: (2 * n - r - 1) * r / 2 + c == Packed(n, r, c)
  {
    StartTwice(n, r);
    assert (2 * n - r + 1) * r == r * (2 * n - r + 1);
    assert (2 * n - r - 1) * r == r * (2 * n - r + 1) - 2 * r;
  }

  lemma {:induction false} StartGrows(n: nat, r: nat, r': nat)
    requires r <= r' <= n
    ensures 0 <= Start(n, r) <= Start(n, r') && (r < r' ==> Start(n, r) + n - r <= Start(n, r'))
    decreases r'
  {
    if r < r' {
      StartGrows(n, r, r' - 1);
    } else if r > 0 {
      StartGrows(n, r - 1, r - 1);
    }
  }

  lemma StartStep(n: int, r: nat)
    ensures Start(n, 0) == 0
    ensures r > 0 ==> Start(n, r) == Start(n, r - 1) + n - (r - 1)
  {
  }

  lemma PackedInside(n: nat, r: nat, c: nat)
    requires r <= c < n
    ensures 0 <= Packed(n, r, c) < Start(n, n)
  {
    StartGrows(n, r, n);
  }

  /** The symmetric matrix of order `n` that a packed upper triangle stands for. */
  ghost function Entry(s: seq<real>, n: nat, r: nat, c: nat): real
    requires r < n && c < n && Start(n, n) <= |s|
  {
    PackedInside(n, if r <= c then r else c, if r <= c then c else r);
    if r <= c then s[Packed(n, r, c)] else s[Packed(n, c, r)]
  }

  /** The row or column that becomes number `x` once `[index, index + nmiss)` are gone. */
  function Before(x: nat, index: nat, nmiss: nat): nat {
    if x < index then x else x + nmiss
  }

  /** `s'` stands for the matrix of `s` without rows and columns `[index, index + nmiss)`. */
  ghost predicate Deleted(s: seq<real>, s': seq<real>, n: nat, index: nat, nmiss: nat) {
    && index + nmiss <= n && Start(n, n) <= |s| && Start(n - nmiss, n - nmiss) <= |s'|
    && forall r, c :: 0 <= r < n - nmiss && 0 <= c < n - nmiss ==>
      Entry(s', n - nmiss, r, c) == Entry(s, n, Before(r, index, nmiss), Before(c, index, nmiss))
  }

  /** Deleting twice at the same place is deleting once. */
  lemma DeletedTwice(s: seq<real>, s': seq<real>, s'': seq<real>, n: nat, index: nat, a: nat, b: nat)
    requires Deleted(s, s', n, index, a) && Deleted(s', s'', n - a, index, b)
    ensures Deleted(s, s'', n, index, a + b)
  {
    var m := n - a - b;
    forall r, c | 0 <= r < m && 0 <= c < m
      ensures Entry(s'', m, r, c) == Entry(s, n, Before(r, index, a + b), Before(c, index, a + b))
    {
      var r', c' := Before(r, index, b), Before(c, index, b);
      assert Entry(s'', m, r, c) == Entry(s', n - a, r', c');
      assert Before(r', index, a) == Before(r, index, a + b) && Before(c', index, a) == Before(c, index, a + b);
    }
  }

  // ---- Overlapping copies ----

  /** `for (i=nelem; i--;) *(a++) = *(a2++)`. */
  method CopyDown<T>(m: array<T>, a0: nat, b0: nat, nelem: nat) returns (a: nat, b: nat)
    requires a0 <= b0 && b0 + nelem <= m.Length
    modifies m
    ensures a == a0 + nelem && b == b0 + nelem
    ensures m[..a] == old(m[..a0]) + old(m[b0..b])
    ensures forall j :: a <= j < m.Length ==> m[j] == old(m[j])
  {
    a, b := a0, b0;
    ghost var s := m[..];
    var i := nelem;
    while i > 0
      invariant 0 <= i <= nelem && a == a0 + nelem - i && b == b0 + nelem - i
      invariant m[..a] == s[..a0] + s[b0..b]
      invariant forall j :: a <= j < m.Length ==> m[j] == s[j]
    {
      m[a] := m[b];
      a, b, i := a + 1, b + 1, i - 1;
    }
  }

  // ---- The packed branch ----

  /** The memory after the lines are removed. */
  ghost function LinesGone(s: seq<real>, n: nat, index: nat, nmiss: nat): seq<real>
    requires index + nmiss <= n && Start(n, n) == |s|
  {
    StartGrows(n, index, index + nmiss);
    StartGrows(n, index + nmiss, n);
    s[..Start(n, index)] + s[Start(n, index + nmiss)..]
  }

  /** The beginning of the memory after columns are removed from the first `k` lines. */
  ghost function Kept(s: seq<real>, n: nat, index: nat, nmiss: nat, k: nat): (r: seq<real>)
    requires k <= index && index + nmiss <= n && Start(n, index) <= |s|
    ensures |r| == Packed(n - nmiss, k, index)
  {
    StartGrows(n, k, index);
    if k == 0 then s[..index]
    else
      StartGrows(n, k - 1, k);
      Kept(s, n, index, nmiss, k - 1) + s[Packed(n, k - 1, index) + nmiss..Packed(n, k, index)]
  }

  /** The memory at the end. */
  ghost function Shrunk(s: seq<real>, n: nat, index: nat, nmiss: nat): seq<real>
    requires index + nmiss <= n && Start(n, n) == |s|
  {
    var gone := LinesGone(s, n, index, nmiss);
    StartGrows(n, index, n);
    StartGrows(n, index + nmiss, n);
    Kept(gone, n, index, nmiss, index) + gone[Start(n, index)..]
  }

  /** What the `k`-th copy brings. */
  lemma KeptNew(s: seq<real>, n: nat, index: nat, nmiss: nat, k: nat, r: nat, c: nat)
    requires 0 < k <= index && index + nmiss <= n && Start(n, index) <= |s|
    requires r <= c < n - nmiss && if r == k - 1 then index <= c else r == k && c < index
    ensures 0 <= Packed(n - nmiss, r, c) < |Kept(s, n, index, nmiss, k)|
    ensures 0 <= Packed(n, r, Before(c, index, nmiss)) < |s|
    ensures Kept(s, n, index, nmiss, k)[Packed(n - nmiss, r, c)] == s[Packed(n, r, Before(c, index, nmiss))]
  {
    hide Start, Kept;
    StartGrows(n, k, index);
    KeptMore(s, n, index, nmiss, k - 1);
    var start, b := Packed(n - nmiss, k - 1, index), Packed(n, k - 1, index) + nmiss;
    var j := Packed(n - nmiss, r, c) - start;
    NewAt(n, index, nmiss, k, r, c);
    assert Kept(s, n, index, nmiss, k)[start + j] == s[b..Packed(n, k, index)][j];
  }

  lemma NewAt(n: nat, index: nat, nmiss: nat, k: nat, r: nat, c: nat)
    requires 0 < k <= index && index + nmiss <= n
    requires r <= c < n - nmiss && if r == k - 1 then index <= c else r == k && c < index
    ensures var start, b := Packed(n - nmiss, k - 1, index), Packed(n, k - 1, index) + nmiss;
      && 0 <= start <= Packed(n - nmiss, r, c) < Packed(n - nmiss, k, index)
      && b + (Packed(n - nmiss, r, c) - start) == Packed(n, r, Before(c, index, nmiss)) < Packed(n, k, index)
  {
    StartStep(n, k);
    StartStep(n - nmiss, k);
    hide Start;
    StartGrows(n - nmiss, 0, k - 1);
    StartStep(n - nmiss, 0);
  }

  lemma {:induction false} KeptAt(s: seq<real>, n: nat, index: nat, nmiss: nat, k: nat, r: nat, c: nat)
    requires k <= index && index + nmiss <= n && Start(n, index) <= |s|
    requires r <= k && r <= c < n - nmiss && (r < k || c < index)
    ensures 0 <= Packed(n - nmiss, r, c) < |Kept(s, n, index, nmiss, k)|
    ensures 0 <= Packed(n, r, Before(c, index, nmiss)) < |s|
    ensures Kept(s, n, index, nmiss, k)[Packed(n - nmiss, r, c)] == s[Packed(n, r, Before(c, index, nmiss))]
  {
    hide Start;
    var m := n - nmiss;
    StartGrows(m, r, k);
    StartGrows(n, r, index);
    StartStep(n, r);
    if k > 0 {
      StartStep(n, k);
      StartStep(m, k);
      StartGrows(n, k, index);
      if r < k - 1 || (r == k - 1 && c < index) {
        KeptAt(s, n, index, nmiss, k - 1, r, c);
      } else {
        KeptNew(s, n, index, nmiss, k, r, c);
      }
    } else {
      StartStep(m, 0);
    }
  }

  /** Below the deleted lines, lines are as far apart as in the smaller matrix. */
  lemma {:induction false} ShiftedStart(n: nat, index: nat, nmiss: nat, r: nat)
    requires index + nmiss <= n && index <= r <= n - nmiss
    ensures Start(n, r + nmiss) - Start(n, index + nmiss) == Start(n - nmiss, r) - Start(n - nmiss, index)
  {
    if r > index {
      ShiftedStart(n, index, nmiss, r - 1);
    }
  }

  lemma ShrunkLength(s: seq<real>, n: nat, index: nat, nmiss: nat)
    requires index + nmiss <= n && Start(n, n) == |s|
    ensures |Shrunk(s, n, index, nmiss)| == Start(n - nmiss, n - nmiss)
  {
    StartGrows(n, index, index + nmiss);
    StartGrows(n, index + nmiss, n);
    ShiftedStart(n, index, nmiss, n - nmiss);
  }

  lemma UpperLines(s: seq<real>, n: nat, index: nat, nmiss: nat, r: nat, c: nat)
    requires index + nmiss <= n && Start(n, n) == |s| && r < index && r <= c < n - nmiss
    ensures 0 <= Packed(n - nmiss, r, c) < |Shrunk(s, n, index, nmiss)|
    ensures 0 <= Packed(n, r, Before(c, index, nmiss)) < |s|
    ensures Shrunk(s, n, index, nmiss)[Packed(n - nmiss, r, c)] == s[Packed(n, r, Before(c, index, nmiss))]
  {
    hide Start, Kept;
    StartGrows(n, r, index);
    StartGrows(n, index, index + nmiss);
    StartGrows(n, index + nmiss, n);
    KeptAt(LinesGone(s, n, index, nmiss), n, index, nmiss, index, r, c);
  }

  lemma LowerLines(s: seq<real>, n: nat, index: nat, nmiss: nat, r: nat, c: nat)
    requires index + nmiss <= n && Start(n, n) == |s| && index <= r <= c < n - nmiss
    ensures 0 <= Packed(n - nmiss, r, c) < |Shrunk(s, n, index, nmiss)|
    ensures 0 <= Packed(n, r + nmiss, c + nmiss) < |s|
    ensures Shrunk(s, n, index, nmiss)[Packed(n - nmiss, r, c)] == s[Packed(n, r + nmiss, c + nmiss)]
  {
    hide Start, Kept;
    ShrunkLength(s, n, index, nmiss);
    StartGrows(n, index, index + nmiss);
    StartGrows(n, index + nmiss, n);
    ShiftedStart(n, index, nmiss, r);
    StartGrows(n - nmiss, index, r);
    PackedInside(n - nmiss, r, c);
    PackedInside(n, r + nmiss, c + nmiss);
  }

  /** Every stored element is the one it should be. */
  lemma ShrunkAt(s: seq<real>, n: nat, index: nat, nmiss: nat, r: nat, c: nat)
    requires index + nmiss <= n && Start(n, n) == |s| && r <= c < n - nmiss
    ensures 0 <= Packed(n - nmiss, r, c) < |Shrunk(s, n, index, nmiss)|
    ensures 0 <= Packed(n, Before(r, index, nmiss), Before(c, index, nmiss)) < |s|
    ensures Shrunk(s, n, index, nmiss)[Packed(n - nmiss, r, c)] ==
      s[Packed(n, Before(r, index, nmiss), Before(c, index, nmiss))]
  {
    hide Start, Kept, Packed, Shrunk;
    if r < index {
      UpperLines(s, n, index, nmiss, r, c);
    } else {
      LowerLines(s, n, index, nmiss, r, c);
    }
  }

  lemma ShrunkIsDeleted(s: seq<real>, n: nat, index: nat, nmiss: nat)
    requires index + nmiss <= n && Start(n, n) == |s|
    ensures Deleted(s, Shrunk(s, n, index, nmiss), n, index, nmiss)
  {
    hide Shrunk, Packed, Start;
    var m, s' := n - nmiss, Shrunk(s, n, index, nmiss);
    ShrunkLength(s, n, index, nmiss);
    forall r, c | 0 <= r < m && 0 <= c < m
      ensures Entry(s', m, r, c) == Entry(s, n, Before(r, index, nmiss), Before(c, index, nmiss))
    {
      ShrunkAt(s, n, index, nmiss, if r <= c then r else c, if r <= c then c else r);
    }
  }

  lemma Boundaries(n: nat, index: nat, nmiss: nat)
    requires index + nmiss <= n
    ensures 0 <= Start(n, index) <= Start(n, index + nmiss) <= Start(n, n)
    ensures (2 * n - index + 1) * index / 2 == Start(n, index)
    ensures (2 * n - index - nmiss + 1) * (index + nmiss) / 2 == Start(n, index + nmiss)
    ensures (n + 1) * n / 2 == Start(n, n)
  {
    hide Start;
    StartAsWritten(n, index);
    StartAsWritten(n, index + nmiss);
    StartAsWritten(n, n);
    StartGrows(n, index, index + nmiss);
    StartGrows(n, index + nmiss, n);
    assert 2 * n - (index + nmiss) + 1 == 2 * n - index - nmiss + 1;
  }

  /** "First, remove lines". */
  method RemoveLines(alpha: array<real>, n: nat, index: nat, nmiss: nat) returns (nelem: nat)
    requires index + nmiss <= n && 0 <= Start(n, n) <= alpha.Length
    modifies alpha
    ensures nelem == Start(n, n) - Start(n, index + nmiss) && 0 <= Start(n, index)
      && Start(n, index) + nelem <= alpha.Length
    ensures alpha[..Start(n, index) + nelem] == LinesGone(old(alpha[..Start(n, n)]), n, index, nmiss)
    ensures alpha[Start(n, n)..] == old(alpha[Start(n, n)..])
  {
    hide Start;
    Boundaries(n, index, nmiss);
    ghost var s := alpha[..];
    var l := (2 * n - index - nmiss + 1) * (index + nmiss) / 2;
    nelem := (n + 1) * n / 2 - l;
    var a, _ := CopyDown(alpha, (2 * n - index + 1) * index / 2, l, nelem);
    assert s[..Start(n, n)][Start(n, index + nmiss)..] == s[l..l + nelem];
    assert s[..Start(n, n)][..Start(n, index)] == s[..Start(n, index)];
  }

  /** What "remove columns" has done after `k` lines. */
  ghost predicate ColumnsGone(now: seq<real>, was: seq<real>, g: seq<real>, n: nat, index: nat, nmiss: nat, k: nat) {
    && k <= index && index + nmiss <= n && 0 <= Start(n, index) <= |g| <= |was| == |now| && g == was[..|g|]
    && 0 <= Packed(n - nmiss, k, index) <= Packed(n, k, index) <= Start(n, index)
    && now[..Packed(n - nmiss, k, index)] == Kept(g, n, index, nmiss, k)
    && forall j :: Packed(n, k, index) <= j < |now| ==> now[j] == was[j]
  }

  lemma NoColumnsGone(was: seq<real>, g: seq<real>, n: nat, index: nat, nmiss: nat)
    requires index + nmiss <= n && 0 <= Start(n, index) <= |g| <= |was| && g == was[..|g|]
    ensures ColumnsGone(was, was, g, n, index, nmiss, 0)
    ensures Packed(n - nmiss, 0, index) == Packed(n, 0, index) == index
  {
    StartStep(n, 0);
    StartStep(n, 1);
    if index > 0 {
      StartGrows(n, 1, index);
    }
  }

  lemma MoreColumnsGone(now: seq<real>, now': seq<real>, was: seq<real>, g: seq<real>, n: nat, index: nat, nmiss: nat,
      k: nat,
                        a: nat, b: nat, len: nat)
    requires ColumnsGone(now, was, g, n, index, nmiss, k) && k < index && len == n - nmiss - 1 - k
    requires a == Packed(n - nmiss, k, index) && b == Packed(n, k, index) + nmiss && b + len <= |now| == |now'|
    requires now'[..a + len] == now[..a] + now[b..b + len] && forall j :: a + len <= j < |now| ==> now'[j] == now[j]
    ensures ColumnsGone(now', was, g, n, index, nmiss, k + 1)
    ensures a + len == Packed(n - nmiss, k + 1, index) && b + len == Packed(n, k + 1, index)
  {
    StartStep(n, k + 1);
    StartStep(n - nmiss, k + 1);
    hide Start, Kept;
    StartGrows(n, k + 1, index);
    KeptMore(g, n, index, nmiss, k);
    SlicesAgree(now, was, g, b - nmiss, b, b + len);
  }

  lemma SlicesAgree(now: seq<real>, was: seq<real>, g: seq<real>, from: nat, b: nat, e: nat)
    requires |g| <= |was| == |now| && g == was[..|g|] && from <= b <= e <= |g| && forall j :: from <= j < |now| ==>
      now[j] == was[j]
    ensures now[b..e] == g[b..e]
  {
  }

  method RemoveColumnsOfLine(alpha: array<real>, a: int, a2: int, nelem2: nat, ghost was: seq<real>, ghost g: seq<real>,
                             ghost n: nat, index: nat, nmiss: nat, ghost k: nat) returns (a': int, a2': int)
    requires ColumnsGone(alpha[..], was, g, n, index, nmiss, k) && k < index && nelem2 == n - nmiss - 1 - k
    requires a == Packed(n - nmiss, k, index) && a2 == Packed(n, k, index)
    modifies alpha
    ensures ColumnsGone(alpha[..], was, g, n, index, nmiss, k + 1)
    ensures a' == Packed(n - nmiss, k + 1, index) && a2' == Packed(n, k + 1, index)
  {
    hide Start, Kept, ColumnsGone;
    ghost var now := alpha[..];
    RoomForColumns(now, was, g, n, index, nmiss, k);
    a', a2' := CopyDown(alpha, a, a2 + nmiss, nelem2);
    MoreColumnsGone(now, alpha[..], was, g, n, index, nmiss, k, a, a2 + nmiss, nelem2);
  }

  /** "Remove columns". */
  method RemoveColumns(alpha: array<real>, n: nat, index: nat, nmiss: nat, nelem: nat)
    requires index + nmiss <= n && nmiss < n && 0 <= Start(n, index) && Start(n, index) + nelem <= alpha.Length
    requires 0 <= Start(n - nmiss, index)
    modifies alpha
    ensures Start(n - nmiss, index) + nelem <= alpha.Length
    ensures alpha[..Start(n - nmiss, index) + nelem]
      == Kept(old(alpha[..Start(n, index) + nelem]), n, index, nmiss, index)
        + old(alpha[Start(n, index)..Start(n, index) + nelem])
  {
    hide Start, Kept, ColumnsGone;
    ghost var s := alpha[..];
    ghost var g := alpha[..Start(n, index) + nelem];
    var a, a2 := index, index;
    var nelem2 := n - nmiss - 1;
    var l := index;
    ghost var k := 0;
    NoColumnsGone(s, g, n, index, nmiss);
    while l > 0
      invariant k == index - l && 0 <= k <= index && nelem2 == n - nmiss - 1 - k
      invariant a == Packed(n - nmiss, k, index) && a2 == Packed(n, k, index)
      invariant ColumnsGone(alpha[..], s, g, n, index, nmiss, k)
    {
      a, a2 := RemoveColumnsOfLine(alpha, a, a2, nelem2, s, g, n, index, nmiss, k);
      l, nelem2, k := l - 1, nelem2 - 1, k + 1;
    }
    AllColumnsGone(alpha[..], s, g, n, index, nmiss);
    RestOfLines(alpha, a, a2, nelem, index);
    assert alpha[..a + nelem] == Kept(g, n, index, nmiss, index) + s[a2..a2 + nelem];
  }

  /** The lines below the deleted ones; nothing is to be moved if there are none above. */
  method RestOfLines(alpha: array<real>, a: nat, a2: nat, nelem: nat, index: nat)
    requires a <= a2 && a2 + nelem <= alpha.Length && (index == 0 ==> a == a2)
    modifies alpha
    ensures alpha[..a + nelem] == old(alpha[..a]) + old(alpha[a2..a2 + nelem])
  {
    if index > 0 {
      var _, _ := CopyDown(alpha, a, a2, nelem);
    }
  }

  lemma RoomForColumns(now: seq<real>, was: seq<real>, g: seq<real>, n: nat, index: nat, nmiss: nat, k: nat)
    requires ColumnsGone(now, was, g, n, index, nmiss, k) && k < index
    ensures 0 <= Packed(n - nmiss, k, index) <= Packed(n, k, index) && Packed(n, k, index) + n - 1 - k <= |now|
  {
    StartStep(n, k + 1);
    hide Start, Kept;
    StartGrows(n, k + 1, index);
  }

  lemma AllColumnsGone(now: seq<real>, was: seq<real>, g: seq<real>, n: nat, index: nat, nmiss: nat)
    requires ColumnsGone(now, was, g, n, index, nmiss, index)
    ensures 0 <= Start(n - nmiss, index) <= Start(n, index) <= |g| <= |was| == |now|
    ensures now[..Start(n - nmiss, index)] == Kept(g, n, index, nmiss, index)
    ensures forall j :: Start(n, index) <= j < |now| ==> now[j] == was[j]
    ensures index == 0 ==> Start(n, index) == Start(n - nmiss, index) == 0
  {
  }

  lemma KeptMore(g: seq<real>, n: nat, index: nat, nmiss: nat, k: nat)
    requires k < index && index + nmiss <= n && 0 <= Start(n, index) <= |g|
    ensures 0 <= Packed(n, k, index) + nmiss <= Packed(n, k + 1, index) <= |g|
    ensures Kept(g, n, index, nmiss, k + 1) == Kept(g, n, index, nmiss, k)
      + g[Packed(n, k, index) + nmiss..Packed(n, k + 1, index)]
  {
    StartGrows(n, k, index);
    StartGrows(n, k + 1, index);
  }

  /** The removal of entries of the beta vector. */
  method ShrinkVector(beta: array<real>, n: nat, index: nat, nmiss: nat)
    requires index + nmiss <= n <= beta.Length
    modifies beta
    ensures beta[..n - nmiss] == old(beta[..index]) + old(beta[index + nmiss..n])
  {
    var _, _ := CopyDown(beta, index, index + nmiss, n - nmiss - index);
  }

  /** shrink_mat on packed matrices. */
  method ShrinkPacked(alpha: array<real>, beta: array<real>, n: nat, index: nat, nmiss: nat)
    requires nmiss >= n || index + nmiss <= n
    requires 0 <= Start(n, n) <= alpha.Length && n <= beta.Length && alpha != beta
    modifies alpha, beta
    ensures nmiss >= n ==> alpha[..] == old(alpha[..]) && beta[..] == old(beta[..])
    ensures nmiss < n ==>
      && 0 <= Start(n - nmiss, n - nmiss) <= alpha.Length
      && Deleted(old(alpha[..Start(n, n)]), alpha[..Start(n - nmiss, n - nmiss)], n, index, nmiss)
    ensures nmiss < n ==> beta[..n - nmiss] == old(beta[..index]) + old(beta[index + nmiss..n])
  {
    hide Start, Kept;
    if nmiss >= n {
      return;
    }
    ghost var s := alpha[..Start(n, n)];
    Boundaries(n, index, nmiss);
    ShrunkLength(s, n, index, nmiss);
    ShrunkIsDeleted(s, n, index, nmiss);
    StartGrows(n - nmiss, 0, index);
    StartStep(n - nmiss, 0);
    var nelem := RemoveLines(alpha, n, index, nmiss);
    RemoveColumns(alpha, n, index, nmiss, nelem);
    assert alpha[..Start(n - nmiss, index) + nelem] == Shrunk(s, n, index, nmiss);
    ShrinkVector(beta, n, index, nmiss);
  }

  // ---- The dense branch ----

  /** Where line `r` of a dense matrix of order `n` starts. */
  function Line(n: nat, r: nat): nat {
    if r == 0 then 0 else Line(n, r - 1) + n
  }

  lemma {:induction false} LineIs(n: nat, r: nat)
    ensures Line(n, r) == r * n
  {
    if r > 0 {
      LineIs(n, r - 1);
    }
  }

  lemma {:induction false} LineAdds(n: nat, r: nat, r': nat)
    ensures Line(n, r + r') == Line(n, r) + Line(n, r')
  {
    if r' > 0 {
      LineAdds(n, r, r' - 1);
    }
  }

  lemma LineInside(n: nat, r: nat, c: nat)
    requires r < n && c < n
    ensures Line(n, r) + c < Line(n, n) && Line(n, r) + n <= Line(n, n)
  {
    LineAdds(n, r + 1, n - r - 1);
  }

  ghost function DenseEntry(s: seq<real>, n: nat, r: nat, c: nat): real
    requires r < n && c < n && Line(n, n) <= |s|
  {
    LineInside(n, r, c);
    s[Line(n, r) + c]
  }

  ghost predicate DenseDeleted(s: seq<real>, s': seq<real>, n: nat, index: nat, nmiss: nat) {
    && index + nmiss <= n && Line(n, n) <= |s| && Line(n - nmiss, n - nmiss) <= |s'|
    && forall r, c :: 0 <= r < n - nmiss && 0 <= c < n - nmiss ==>
      DenseEntry(s', n - nmiss, r, c) == DenseEntry(s, n, Before(r, index, nmiss), Before(c, index, nmiss))
  }

  /** The memory after the lines are removed. */
  ghost function DenseLinesGone(s: seq<real>, n: nat, index: nat, nmiss: nat): (g: seq<real>)
    requires index + nmiss <= n && Line(n, n) == |s|
    ensures |g| == Line(n, n - nmiss)
  {
    LineAdds(n, index, nmiss);
    LineAdds(n, index + nmiss, n - nmiss - index);
    LineAdds(n, index, n - nmiss - index);
    s[..Line(n, index)] + s[Line(n, index + nmiss)..]
  }

  /** The beginning of the memory after `k` copies of the column removal. */
  ghost function DenseKept(g: seq<real>, n: nat, index: nat, nmiss: nat, k: nat): (r: seq<real>)
    requires index + nmiss <= n && k < n - nmiss && Line(n, n - nmiss) == |g|
    ensures |r| == Line(n - nmiss, k) + index
  {
    LineAdds(n, k + 1, n - nmiss - k - 1);
    if k == 0 then g[..index]
    else DenseKept(g, n, index, nmiss, k - 1) + g[Line(n, k - 1) + index + nmiss..Line(n, k) + index]
  }

  ghost function DenseShrunk(s: seq<real>, n: nat, index: nat, nmiss: nat): seq<real>
    requires index + nmiss <= n && nmiss < n && Line(n, n) == |s|
  {
    var g, last := DenseLinesGone(s, n, index, nmiss), n - nmiss - 1;
    DenseKept(g, n, index, nmiss, last) + g[Line(n, last) + index + nmiss..]
  }

  lemma {:induction false} DenseKeptAt(g: seq<real>, n: nat, index: nat, nmiss: nat, k: nat, r: nat, c: nat)
    requires index + nmiss <= n && k < n - nmiss && Line(n, n - nmiss) == |g|
    requires r <= k && c < n - nmiss && (r < k || c < index)
    ensures Line(n - nmiss, r) + c < |DenseKept(g, n, index, nmiss, k)| && Line(n, r) + Before(c, index, nmiss) < |g|
    ensures DenseKept(g, n, index, nmiss, k)[Line(n - nmiss, r) + c] == g[Line(n, r) + Before(c, index, nmiss)]
    decreases k
  {
    hide Line;
    LineBelow(n, r, n - nmiss);
    LineAdds(n - nmiss, r, k - r);
    if k == 0 {
      DenseKeptNone(g, n, index, nmiss);
    } else {
      DenseKeptMore(g, n, index, nmiss, k);
      if r < k - 1 || (r == k - 1 && c < index) {
        DenseKeptAt(g, n, index, nmiss, k - 1, r, c);
      } else {
        DenseKeptNew(g, n, index, nmiss, k, r, c);
      }
    }
  }

  lemma LineBelow(n: nat, r: nat, r': nat)
    requires r < r'
    ensures Line(n, r) + n == Line(n, r + 1) <= Line(n, r')
  {
    LineAdds(n, r + 1, r' - r - 1);
  }

  lemma DenseKeptNone(g: seq<real>, n: nat, index: nat, nmiss: nat)
    requires index + nmiss <= n && nmiss < n && Line(n, n - nmiss) == |g|
    ensures index <= |g| && DenseKept(g, n, index, nmiss, 0) == g[..index] && Line(n, 0) == Line(n - nmiss, 0) == 0
  {
  }

  lemma DenseKeptMore(g: seq<real>, n: nat, index: nat, nmiss: nat, k: nat)
    requires index + nmiss <= n && 0 < k < n - nmiss && Line(n, n - nmiss) == |g|
    ensures Line(n, k) == Line(n, k - 1) + n && Line(n - nmiss, k) == Line(n - nmiss, k - 1) + n - nmiss
      && Line(n, k) + n <= |g|
    ensures DenseKept(g, n, index, nmiss, k)
      == DenseKept(g, n, index, nmiss, k - 1) + g[Line(n, k - 1) + index + nmiss..Line(n, k) + index]
  {
    LineAdds(n, k + 1, n - nmiss - k - 1);
  }

  lemma DenseKeptNew(g: seq<real>, n: nat, index: nat, nmiss: nat, k: nat, r: nat, c: nat)
    requires index + nmiss <= n && 0 < k < n - nmiss && Line(n, n - nmiss) == |g|
    requires c < n - nmiss && if r == k - 1 then index <= c else r == k && c < index
    ensures Line(n - nmiss, r) + c < |DenseKept(g, n, index, nmiss, k)| && Line(n, r) + Before(c, index, nmiss) < |g|
    ensures DenseKept(g, n, index, nmiss, k)[Line(n - nmiss, r) + c] == g[Line(n, r) + Before(c, index, nmiss)]
  {
    hide Line, DenseKept;
    DenseKeptMore(g, n, index, nmiss, k);
    var start, b, e := Line(n - nmiss, k - 1) + index, Line(n, k - 1) + index + nmiss, Line(n, k) + index;
    var j := Line(n - nmiss, r) + c - start;
    assert b + j == Line(n, r) + Before(c, index, nmiss) && 0 <= j < e - b;
    assert DenseKept(g, n, index, nmiss, k)[start + j] == g[b..e][j];
  }

  lemma DenseGoneAt(s: seq<real>, n: nat, index: nat, nmiss: nat, r: nat, c: nat)
    requires index + nmiss <= n && Line(n, n) == |s| && r < n - nmiss && c < n
    ensures Line(n, r) + c < |DenseLinesGone(s, n, index, nmiss)| && Line(n, Before(r, index, nmiss)) + c < |s|
    ensures DenseLinesGone(s, n, index, nmiss)[Line(n, r) + c] == s[Line(n, Before(r, index, nmiss)) + c]
  {
    hide Line;
    LineBelow(n, r, n - nmiss);
    LineBelow(n, Before(r, index, nmiss), n);
    LineAdds(n, index, nmiss);
    LineAdds(n, index + nmiss, n - nmiss - index);
    if r < index {
      LineBelow(n, r, index);
    } else {
      LineAdds(n, index, r - index);
      LineAdds(n, index + nmiss, r - index);
    }
  }

  lemma DenseShrunkAt(s: seq<real>, n: nat, index: nat, nmiss: nat, r: nat, c: nat)
    requires index + nmiss <= n && Line(n, n) == |s| && r < n - nmiss && c < n - nmiss
    ensures |DenseShrunk(s, n, index, nmiss)| == Line(n - nmiss, n - nmiss)
      && Line(n - nmiss, r) + c < Line(n - nmiss, n - nmiss)
    ensures Line(n, Before(r, index, nmiss)) + Before(c, index, nmiss) < |s|
    ensures DenseShrunk(s, n, index, nmiss)[Line(n - nmiss, r) + c] ==
      s[Line(n, Before(r, index, nmiss)) + Before(c, index, nmiss)]
  {
    hide Line, DenseKept, DenseLinesGone;
    var m, g, last := n - nmiss, DenseLinesGone(s, n, index, nmiss), n - nmiss - 1;
    DenseGoneAt(s, n, index, nmiss, r, Before(c, index, nmiss));
    LineBelow(n, last, m);
    LineBelow(m, last, m);
    LineInside(m, r, c);
    if r < last || c < index {
      DenseKeptAt(g, n, index, nmiss, last, r, c);
    }
  }

  lemma DenseShrunkIsDeleted(s: seq<real>, n: nat, index: nat, nmiss: nat)
    requires index + nmiss <= n && nmiss < n && Line(n, n) == |s|
    ensures |DenseShrunk(s, n, index, nmiss)| == Line(n - nmiss, n - nmiss)
    ensures DenseDeleted(s, DenseShrunk(s, n, index, nmiss), n, index, nmiss)
  {
    hide Line, DenseShrunk;
    var m := n - nmiss;
    DenseShrunkAt(s, n, index, nmiss, 0, 0);
    forall r, c | 0 <= r < m && 0 <= c < m
      ensures DenseEntry(DenseShrunk(s, n, index, nmiss), m, r, c) ==
        DenseEntry(s, n, Before(r, index, nmiss), Before(c, index, nmiss))
    {
      DenseShrunkAt(s, n, index, nmiss, r, c);
    }
  }

  /** What the column removal has done after `k` copies. */
  ghost predicate DenseColumnsGone(now: seq<real>, g: seq<real>, n: nat, index: nat, nmiss: nat, k: nat) {
    && index + nmiss <= n && k < n - nmiss && Line(n, n - nmiss) == |g| <= |now|
    && Line(n - nmiss, k) <= Line(n, k) && Line(n, k) + n <= |g|
    && now[..Line(n - nmiss, k) + index] == DenseKept(g, n, index, nmiss, k)
    && forall j :: Line(n, k) + index <= j < |g| ==> now[j] == g[j]
  }

  lemma DenseMoreColumnsGone(now: seq<real>, now': seq<real>, g: seq<real>, n: nat, index: nat, nmiss: nat, k: nat,
      a: nat, b: nat)
    requires DenseColumnsGone(now, g, n, index, nmiss, k) && k + 1 < n - nmiss && |now| == |now'|
    requires a == Line(n - nmiss, k) + index && b == Line(n, k) + index + nmiss && b + n - nmiss <= |now|
    requires now'[..a + n - nmiss] == now[..a] + now[b..b + n - nmiss]
    requires forall j :: a + n - nmiss <= j < |now| ==> now'[j] == now[j]
    ensures DenseColumnsGone(now', g, n, index, nmiss, k + 1)
    ensures a + n - nmiss == Line(n - nmiss, k + 1) + index && b + n - nmiss == Line(n, k + 1) + index
  {
    hide Line, DenseKept;
    DenseKeptMore(g, n, index, nmiss, k + 1);
    assert now[b..b + n - nmiss] == g[b..b + n - nmiss];
  }

  method DenseRemoveLine(alpha: array<real>, a: nat, a2: nat, nelem2: nat, ghost g: seq<real>, ghost n: nat,
      ghost index: nat, nmiss: nat, ghost k: nat)
    returns (a': nat, a2': nat)
    requires DenseColumnsGone(alpha[..], g, n, index, nmiss, k) && k + 1 < n - nmiss && nelem2 == n - nmiss
    requires a == Line(n - nmiss, k) + index && a2 == Line(n, k) + index + nmiss
    modifies alpha
    ensures DenseColumnsGone(alpha[..], g, n, index, nmiss, k + 1)
    ensures a' == Line(n - nmiss, k + 1) + index && a2' == Line(n, k + 1) + index + nmiss
  {
    hide Line, DenseKept;
    ghost var now := alpha[..];
    DenseKeptMore(g, n, index, nmiss, k + 1);
    a', a2' := CopyDown(alpha, a, a2, nelem2);
    DenseMoreColumnsGone(now, alpha[..], g, n, index, nmiss, k, a, a2);
    a2' := a2' + nmiss;
  }

  lemma DenseBoundaries(n: nat, index: nat, nmiss: nat)
    requires index + nmiss <= n
    ensures index * n == Line(n, index) && nmiss * n == Line(n, nmiss)
      && (n - nmiss - index) * n == Line(n, n - nmiss - index)
    ensures Line(n, index + nmiss) == Line(n, index) + Line(n, nmiss)
    ensures Line(n, n) == Line(n, index + nmiss) + Line(n, n - nmiss - index)
  {
    LineIs(n, index);
    LineIs(n, nmiss);
    LineIs(n, n - nmiss - index);
    LineAdds(n, index, nmiss);
    LineAdds(n, index + nmiss, n - nmiss - index);
  }

  method DenseRemoveLines(alpha: array<real>, n: nat, index: nat, nmiss: nat)
    requires index + nmiss <= n && Line(n, n) <= alpha.Length
    modifies alpha
    ensures Line(n, n - nmiss) <= alpha.Length
    ensures alpha[..Line(n, n - nmiss)] == DenseLinesGone(old(alpha[..Line(n, n)]), n, index, nmiss)
  {
    hide Line;
    DenseBoundaries(n, index, nmiss);
    ghost var s := alpha[..Line(n, n)];
    ghost var g := DenseLinesGone(s, n, index, nmiss);
    var a := index * n;
    assert s[a + nmiss * n..] == alpha[a + nmiss * n..Line(n, n)] && s[..a] == alpha[..a];
    var _, _ := CopyDown(alpha, a, a + nmiss * n, (n - nmiss - index) * n);
  }

  method DenseRemoveColumns(alpha: array<real>, ghost s: seq<real>, n: nat, index: nat, nmiss: nat)
    requires index + nmiss <= n && nmiss < n && Line(n, n) == |s| <= alpha.Length && Line(n, n - nmiss) <= alpha.Length
    requires alpha[..Line(n, n - nmiss)] == DenseLinesGone(s, n, index, nmiss)
    modifies alpha
    ensures Line(n - nmiss, n - nmiss) <= alpha.Length
      && alpha[..Line(n - nmiss, n - nmiss)] == DenseShrunk(s, n, index, nmiss)
  {
    hide *;
    ghost var g := DenseLinesGone(s, n, index, nmiss);
    var a := index;
    var a2 := a + nmiss;
    var nelem2 := n - nmiss;
    var l := nelem2 - 1;
    ghost var k := 0;
    DenseNoColumnsGone(alpha[..], g, n, index, nmiss);
    while l > 0
      invariant k == n - nmiss - 1 - l && 0 <= l < n - nmiss
      invariant a == Line(n - nmiss, k) + index && a2 == Line(n, k) + index + nmiss
      invariant DenseColumnsGone(alpha[..], g, n, index, nmiss, k)
    {
      a, a2 := DenseRemoveLine(alpha, a, a2, nelem2, g, n, index, nmiss, k);
      l, k := l - 1, k + 1;
    }
    DenseLastLine(alpha, a, a2, nelem2 - index, s, g, n, index, nmiss);
  }

  method DenseLastLine(alpha: array<real>, a: nat, a2: nat, nelem: nat, ghost s: seq<real>, ghost g: seq<real>,
      ghost n: nat, ghost index: nat, ghost nmiss: nat)
    requires nmiss < n && DenseColumnsGone(alpha[..], g, n, index, nmiss, n - nmiss - 1) && Line(n, n) == |s|
      && g == DenseLinesGone(s, n, index, nmiss)
    requires a == Line(n - nmiss, n - nmiss - 1) + index && a2 == Line(n, n - nmiss - 1) + index + nmiss
      && nelem == n - nmiss - index
    modifies alpha
    ensures Line(n - nmiss, n - nmiss) <= alpha.Length
      && alpha[..Line(n - nmiss, n - nmiss)] == DenseShrunk(s, n, index, nmiss)
  {
    hide *;
    DenseAllColumnsGone(alpha[..], s, g, n, index, nmiss);
    var _, _ := CopyDown(alpha, a, a2, nelem);
  }

  /** shrink_mat on dense matrices. */
  method ShrinkDense(alpha: array<real>, beta: array<real>, n: nat, index: nat, nmiss: nat)
    requires nmiss >= n || index + nmiss <= n
    requires Line(n, n) <= alpha.Length && n <= beta.Length && alpha != beta
    modifies alpha, beta
    ensures nmiss >= n ==> alpha[..] == old(alpha[..]) && beta[..] == old(beta[..])
    ensures nmiss < n ==>
      && Line(n - nmiss, n - nmiss) <= alpha.Length
      && DenseDeleted(old(alpha[..Line(n, n)]), alpha[..Line(n - nmiss, n - nmiss)], n, index, nmiss)
    ensures nmiss < n ==> beta[..n - nmiss] == old(beta[..index]) + old(beta[index + nmiss..n])
  {
    hide Line, DenseDeleted, DenseShrunk;
    if nmiss >= n {
      return;
    }
    ghost var s := alpha[..Line(n, n)];
    DenseShrunkIsDeleted(s, n, index, nmiss);
    DenseRemoveLines(alpha, n, index, nmiss);
    DenseRemoveColumns(alpha, s, n, index, nmiss);
    ShrinkVector(beta, n, index, nmiss);
  }

  lemma DenseNoColumnsGone(now: seq<real>, g: seq<real>, n: nat, index: nat, nmiss: nat)
    requires index + nmiss <= n && nmiss < n && Line(n, n - nmiss) == |g| <= |now| && now[..|g|] == g
    ensures DenseColumnsGone(now, g, n, index, nmiss, 0) && Line(n, 0) == Line(n - nmiss, 0) == 0
  {
    LineBelow(n, 0, n - nmiss);
    DenseKeptNone(g, n, index, nmiss);
  }

  lemma DenseAllColumnsGone(now: seq<real>, s: seq<real>, g: seq<real>, n: nat, index: nat, nmiss: nat)
    requires nmiss < n && DenseColumnsGone(now, g, n, index, nmiss, n - nmiss - 1) && Line(n, n) == |s|
      && g == DenseLinesGone(s, n, index, nmiss)
    ensures var last := n - nmiss - 1; var a, b := Line(n - nmiss, last) + index, Line(n, last) + index + nmiss;
      && a <= b && b + n - nmiss - index == |g| <= |now| && a + n - nmiss - index == Line(n - nmiss, n - nmiss)
      && DenseShrunk(s, n, index, nmiss) == now[..a] + now[b..b + n - nmiss - index]
  {
    hide Line, DenseKept, DenseLinesGone;
    var last := n - nmiss - 1;
    LineBelow(n, last, n - nmiss);
    LineBelow(n - nmiss, last, n - nmiss);
    var b := Line(n, last) + index + nmiss;
    assert now[b..|g|] == g[b..];
  }
}
