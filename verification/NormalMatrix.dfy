// Filling and regularising the packed normal-equation matrix (add_alphamat and regul_mat, scamp/src/astrsolve.c).

module NormalMatrix {
  import opened Basics
  import opened ShrinkMat
  import Medians

  const BIG := Medians.BIG
  const TINY: real := 1.0 / BIG

  /** Different elements of the triangle are at different places. */
  lemma PackedInjective(n: nat, r: nat, c: nat, r': nat, c': nat)
    requires r <= c < n && r' <= c' < n && Packed(n, r, c) == Packed(n, r', c')
    ensures r == r' && c == c'
  {
    hide Start;
    if r < r' {
      StartGrows(n, r, r');
    } else if r' < r {
      StartGrows(n, r', r);
    }
  }

  /** An element of the triangle, after `add` is added to it. */
  ghost predicate Grown(s: seq<real>, s': seq<real>, n: nat, r: nat, c: nat, add: real)
    requires r <= c < n && Start(n, n) <= |s| && Start(n, n) <= |s'|
  {
    PackedInside(n, r, c);
    s'[Packed(n, r, c)] == s[Packed(n, r, c)] + add
  }

  /** What add_alphamat adds to an element of row `i1`, from column `i2` on, before place `upto`. */
  function RowTerm(r: nat, c: nat, i1: nat, i2: nat, weight2: real, cv2: seq<real>, upto: nat): real
    requires upto <= |cv2|
  {
    if r == i1 && i2 <= c < i2 + upto then weight2 * cv2[c - i2] else 0.0
  }

  /** A row of products has entered the upper triangle, up to place `upto`, and nothing else has changed. */
  ghost predicate RowAdded(s: seq<real>, s': seq<real>, n: nat, i1: nat, i2: nat, weight2: real, cv2: seq<real>,
      upto: nat) {
    && upto <= |cv2| && 0 <= Start(n, n) <= |s| == |s'|
    && (forall r, c :: 0 <= r <= c < n ==> Grown(s, s', n, r, c, RowTerm(r, c, i1, i2, weight2, cv2, upto)))
    && forall x :: Start(n, n) <= x < |s| ==> s'[x] == s[x]
  }

  lemma NoRowAdded(s: seq<real>, n: nat, i1: nat, i2: nat, weight2: real, cv2: seq<real>)
    requires 0 <= Start(n, n) <= |s|
    ensures RowAdded(s, s, n, i1, i2, weight2, cv2, 0)
  {
    hide Start;
    forall r, c {:trigger RowTerm(r, c, i1, i2, weight2, cv2, 0)} | 0 <= r <= c < n
      ensures Grown(s, s, n, r, c, RowTerm(r, c, i1, i2, weight2, cv2, 0))
    {
      PackedInside(n, r, c);
    }
  }

  lemma MoreRowAdded(s: seq<real>, was: seq<real>, now: seq<real>, n: nat, i1: nat, i2: nat, weight2: real,
      cv2: seq<real>, q: nat, q1: nat)
    requires RowAdded(s, was, n, i1, i2, weight2, cv2, q) && q < |cv2| && q1 == q + 1 && i1 < n && i2 + |cv2| <= n
    requires i2 + q < i1 ==> now == was
    requires var x := Packed(n, i1, i2 + q);
      i2 + q >= i1 ==> 0 <= x < Start(n, n) && now == was[x := was[x] + weight2 * cv2[q]]
    ensures RowAdded(s, now, n, i1, i2, weight2, cv2, q1)
  {
    hide Start, Grown;
    forall r, c {:trigger RowTerm(r, c, i1, i2, weight2, cv2, q1)} | 0 <= r <= c < n
      ensures Grown(s, now, n, r, c, RowTerm(r, c, i1, i2, weight2, cv2, q1))
    {
      var before := RowTerm(r, c, i1, i2, weight2, cv2, q);
      assert Grown(s, was, n, r, c, before);
      if r == i1 && c == i2 + q {
        assert before == 0.0 && RowTerm(r, c, i1, i2, weight2, cv2, q1) == before + weight2 * cv2[q];
      } else {
        assert RowTerm(r, c, i1, i2, weight2, cv2, q1) == before;
      }
      if i2 + q >= i1 {
        ElementAdded(s, was, now, n, i1, i2 + q, weight2 * cv2[q], r, c, RowTerm(r, c, i1, i2, weight2, cv2, q));
      }
    }
  }

  /** The inner loop of add_alphamat. */
  method AddRow(alpha: array<real>, n: nat, i1: nat, i2: nat, weight2: real, cv2: seq<real>)
    requires i1 < n && i2 + |cv2| <= n && 0 <= Start(n, n) <= alpha.Length
    modifies alpha
    ensures RowAdded(old(alpha[..]), alpha[..], n, i1, i2, weight2, cv2, |cv2|)
  {
    hide Start, RowAdded, Packed;
    ghost var s := alpha[..];
    StartAsWritten(n, i1);
    NoRowAdded(s, n, i1, i2, weight2, cv2);
    var rowp := (2 * n - i1 - 1) * i1 / 2 + i2;
    for q := 0 to |cv2|
      invariant RowAdded(s, alpha[..], n, i1, i2, weight2, cv2, q)
    {
      ghost var was := alpha[..];
      if i2 + q >= i1 {
        PackedInside(n, i1, i2 + q);
        assert (2 * n - i1 - 1) * i1 / 2 + (i2 + q) == Packed(n, i1, i2 + q);
        alpha[rowp + q] := alpha[rowp + q] + weight2 * cv2[q];
      }
      MoreRowAdded(s, was, alpha[..], n, i1, i2, weight2, cv2, q, q + 1);
    }
  }

  lemma ElementAdded(s: seq<real>, was: seq<real>, now: seq<real>, n: nat, i: nat, j: nat, add: real, r: nat, c: nat,
      before: real)
    requires i <= j < n && r <= c < n && 0 <= Start(n, n) <= |s| == |was| == |now| && Grown(s, was, n, r, c, before)
    requires 0 <= Packed(n, i, j) < |was| && now == was[Packed(n, i, j) := was[Packed(n, i, j)] + add]
    ensures Grown(s, now, n, r, c, if r == i && c == j then before + add else before)
  {
    hide Start;
    PackedInside(n, r, c);
    if Packed(n, i, j) == Packed(n, r, c) {
      PackedInjective(n, i, j, r, c);
    }
  }

  // ---- Adding a product of two components ----

  /** The coefficients of one component of the equations: for each of several axes `size` numbers of coefficients with
      the values of the basis functions, one axis after the other. */
  datatype Basis = Basis(index: seq<int>, value: seq<real>, size: nat)

  function Offset(d: nat, size: nat): nat {
    d * size
  }

  lemma OffsetInside(d: nat, naxis: nat, size: nat)
    requires d < naxis
    ensures Offset(d + 1, size) == Offset(d, size) + size <= Offset(naxis, size)
  {
    TimesMonotone(d + 1, naxis, size);
  }

  ghost predicate HasAxes(u: Basis, naxis: nat) {
    |u.index| == |u.value| == Offset(naxis, u.size)
  }

  /** The entries of axis `d`, up to place `p`. */
  function Part<T>(s: seq<T>, d: nat, size: nat, p: nat): seq<T> {
    if Offset(d, size) + p <= |s| then s[Offset(d, size)..Offset(d, size) + p] else []
  }

  /** The component belonging to coefficient `c`. */
  function Component(index: seq<int>, value: seq<real>, c: int): real
    requires |index| == |value|
  {
    if index == [] then 0.0
    else
      var n := |index| - 1;
      Component(index[..n], value[..n], c) + if index[n] == c then value[n] else 0.0
  }

  /** Of numbers that do not repeat, each picks its own value. */
  lemma {:induction false} ComponentOwn(index: seq<int>, value: seq<real>, c: int)
    requires |index| == |value| && Distinct(index)
    ensures c !in index ==> Component(index, value, c) == 0.0
    ensures forall q :: 0 <= q < |index| && index[q] == c ==> Component(index, value, c) == value[q]
  {
    if index != [] {
      var n := |index| - 1;
      ComponentOwn(index[..n], value[..n], c);
      assert c in index[..n] ==> c in index;
    }
  }

  function AxisComponent(u: Basis, d: nat, p: nat, c: int): real
    requires |u.index| == |u.value|
  {
    Component(Part(u.index, d, u.size, p), Part(u.value, d, u.size, p), c)
  }

  /** The sum over the first `d` axes of the products of the components for row `r` and column `c`. */
  function Products(u: Basis, v: Basis, d: nat, r: nat, c: nat): real
    requires |u.index| == |u.value| && |v.index| == |v.value|
  {
    if d == 0 then 0.0
    else Products(u, v, d - 1, r, c) + AxisComponent(u, d - 1, u.size, r) * AxisComponent(v, d - 1, v.size, c)
  }

  /** What has been added to an element before place `p` of axis `d`. */
  function ProductsUpTo(u: Basis, v: Basis, weight: real, d: nat, p: nat, r: nat, c: nat): real
    requires |u.index| == |u.value| && |v.index| == |v.value|
  {
    weight * (Products(u, v, d, r, c) + AxisComponent(u, d, p, r) * AxisComponent(v, d, v.size, c))
  }

  /** The weighted products have entered the upper triangle, up to there, and nothing else has changed. */
  ghost predicate ProductsAdded(s: seq<real>, s': seq<real>, n: nat, u: Basis, v: Basis, weight: real, d: nat, p: nat) {
    && |u.index| == |u.value| && |v.index| == |v.value| && 0 <= Start(n, n) <= |s| == |s'|
    && (forall r, c :: 0 <= r <= c < n ==> Grown(s, s', n, r, c, ProductsUpTo(u, v, weight, d, p, r, c)))
    && forall x :: Start(n, n) <= x < |s| ==> s'[x] == s[x]
  }

  /** The numbers of the coefficients are in range, and those of the second component consecutive on each axis. */
  ghost predicate Numbered(u: Basis, v: Basis, naxis: nat, n: nat)
    requires HasAxes(u, naxis) && HasAxes(v, naxis)
  {
    && (forall k :: 0 <= k < |u.index| ==> 0 <= u.index[k] < n)
    && forall d :: 0 <= d < naxis ==> Consecutive(Part(v.index, d, v.size, v.size), n)
  }

  ghost predicate Consecutive(index: seq<int>, n: nat) {
    index != [] && 0 <= index[0] && index[0] + |index| <= n && forall q :: 0 <= q < |index| ==> index[q] == index[0] + q
  }

  lemma {:induction false} ConsecutiveComponent(index: seq<int>, value: seq<real>, i2: int, c: int)
    requires |index| == |value| && forall q :: 0 <= q < |index| ==> index[q] == i2 + q
    ensures Component(index, value, c) == if i2 <= c < i2 + |index| then value[c - i2] else 0.0
  {
    if index != [] {
      var n := |index| - 1;
      ConsecutiveComponent(index[..n], value[..n], i2, c);
    }
  }

  /** One more entry of the first component. */
  lemma ComponentMore(u: Basis, d: nat, p: nat, t: nat, r: int)
    requires |u.index| == |u.value| && t == Offset(d, u.size) + p < |u.index|
    ensures AxisComponent(u, d, p + 1, r) == AxisComponent(u, d, p, r) + if u.index[t] == r then u.value[t] else 0.0
  {
    hide Offset;
    var index, value := Part(u.index, d, u.size, p + 1), Part(u.value, d, u.size, p + 1);
    assert index[..p] == Part(u.index, d, u.size, p) && value[..p] == Part(u.value, d, u.size, p);
    assert index[p] == u.index[t] && value[p] == u.value[t];
  }

  lemma NoneYet(u: Basis, d: nat, r: int)
    requires |u.index| == |u.value|
    ensures AxisComponent(u, d, 0, r) == 0.0
  {
  }

  /** The row added for one entry is the next term. */
  lemma TermIs(u: Basis, v: Basis, weight: real, d: nat, p: nat, t: nat, r: nat, c: nat)
    requires |u.index| == |u.value| && |v.index| == |v.value| && t == Offset(d, u.size) + p < |u.index|
      && 0 <= u.index[t]
    requires var i, x := Part(v.index, d, v.size, v.size), Part(v.value, d, v.size, v.size);
      |i| == |x| == v.size && i != [] && 0 <= i[0] && forall q :: 0 <= q < |i| ==> i[q] == i[0] + q
    ensures var x := Part(v.value, d, v.size, v.size);
      ProductsUpTo(u, v, weight, d, p + 1, r, c) == ProductsUpTo(u, v, weight, d, p, r, c) +
        RowTerm(r, c, u.index[t], Part(v.index, d, v.size, v.size)[0], weight * u.value[t], x, |x|)
  {
    hide Offset, Component, Part, Products;
    ComponentMore(u, d, p, t, r);
    ConsecutiveComponent(Part(v.index, d, v.size, v.size), Part(v.value, d, v.size, v.size),
      Part(v.index, d, v.size, v.size)[0], c);
    Distribute(weight, Products(u, v, d, r, c), AxisComponent(u, d, p, r), u.value[t], AxisComponent(v, d, v.size, c));
  }

  lemma Distribute(weight: real, a: real, b: real, x: real, y: real)
    ensures weight * (a + (b + x) * y) == weight * (a + b * y) + weight * x * y
    ensures weight * (a + (b + 0.0) * y) == weight * (a + b * y)
  {
  }

  /** The weighted sum over the first `d` axes. */
  function Weighted(u: Basis, v: Basis, weight: real, d: nat, r: nat, c: nat): real
    requires |u.index| == |u.value| && |v.index| == |v.value|
  {
    weight * Products(u, v, d, r, c)
  }

  /** On two axes, as for positions on the sky: the weighted scalar product of the two components. */
  lemma TwoAxes(u: Basis, v: Basis, weight: real, r: nat, c: nat)
    requires |u.index| == |u.value| && |v.index| == |v.value|
    ensures Weighted(u, v, weight, 2, r, c) == weight *
      (AxisComponent(u, 0, u.size, r) * AxisComponent(v, 0, v.size, c)
        + AxisComponent(u, 1, u.size, r) * AxisComponent(v, 1, v.size, c))
  {
    hide AxisComponent;
    assert Products(u, v, 2, r, c) == Products(u, v, 1, r, c)
      + AxisComponent(u, 1, u.size, r) * AxisComponent(v, 1, v.size, c);
  }

  /** At the end of an axis the next one begins. */
  lemma AxisDone(u: Basis, v: Basis, weight: real, d: nat, r: nat, c: nat)
    requires |u.index| == |u.value| && |v.index| == |v.value|
    ensures ProductsUpTo(u, v, weight, d, u.size, r, c) == Weighted(u, v, weight, d + 1, r, c)
  {
    hide AxisComponent;
    assert Products(u, v, d + 1, r, c) == Products(u, v, d, r, c)
      + AxisComponent(u, d, u.size, r) * AxisComponent(v, d, v.size, c);
    hide Products;
  }

  lemma AxisBegun(u: Basis, v: Basis, weight: real, d: nat, r: nat, c: nat)
    requires |u.index| == |u.value| && |v.index| == |v.value|
    ensures ProductsUpTo(u, v, weight, d, 0, r, c) == Weighted(u, v, weight, d, r, c)
  {
    NoneYet(u, d, r);
    hide AxisComponent, Products;
    ZeroTimes(weight, Products(u, v, d, r, c), AxisComponent(v, d, v.size, c));
  }

  lemma ZeroTimes(weight: real, a: real, y: real)
    ensures weight * (a + 0.0 * y) == weight * a
  {
  }

  lemma NoProducts(s: seq<real>, n: nat, u: Basis, v: Basis, weight: real)
    requires |u.index| == |u.value| && |v.index| == |v.value| && 0 <= Start(n, n) <= |s|
    ensures ProductsAdded(s, s, n, u, v, weight, 0, 0)
  {
    hide Start, ProductsUpTo, Weighted;
    forall r, c {:trigger Grown(s, s, n, r, c, ProductsUpTo(u, v, weight, 0, 0, r, c))} | 0 <= r <= c < n
      ensures Grown(s, s, n, r, c, ProductsUpTo(u, v, weight, 0, 0, r, c))
    {
      PackedInside(n, r, c);
      AxisBegun(u, v, weight, 0, r, c);
      NothingSummed(u, v, weight, r, c);
    }
  }

  lemma NothingSummed(u: Basis, v: Basis, weight: real, r: nat, c: nat)
    requires |u.index| == |u.value| && |v.index| == |v.value|
    ensures Weighted(u, v, weight, 0, r, c) == 0.0
  {
  }

  lemma NextAxis(s: seq<real>, now: seq<real>, n: nat, u: Basis, v: Basis, weight: real, d: nat)
    requires ProductsAdded(s, now, n, u, v, weight, d, u.size)
    ensures ProductsAdded(s, now, n, u, v, weight, d + 1, 0)
  {
    hide Start, ProductsUpTo, Grown, Weighted;
    forall r, c {:trigger Grown(s, now, n, r, c, ProductsUpTo(u, v, weight, d + 1, 0, r, c))} | 0 <= r <= c < n
      ensures Grown(s, now, n, r, c, ProductsUpTo(u, v, weight, d + 1, 0, r, c))
    {
      AxisDone(u, v, weight, d, r, c);
      AxisBegun(u, v, weight, d + 1, r, c);
      assert Grown(s, now, n, r, c, ProductsUpTo(u, v, weight, d, u.size, r, c));
    }
  }

  lemma GrownTwice(s: seq<real>, was: seq<real>, now: seq<real>, n: nat, r: nat, c: nat, add: real, add': real)
    requires r <= c < n && Start(n, n) <= |s| && Start(n, n) <= |was| && Start(n, n) <= |now|
    requires Grown(s, was, n, r, c, add) && Grown(was, now, n, r, c, add')
    ensures Grown(s, now, n, r, c, add + add')
  {
  }

  /** One row of products more. */
  lemma NextRow(s: seq<real>, was: seq<real>, now: seq<real>, n: nat, u: Basis, v: Basis, weight: real, naxis: nat,
      d: nat, p: nat,
                t: nat, i2: nat, cv2: seq<real>)
    requires HasAxes(u, naxis) && HasAxes(v, naxis) && Numbered(u, v, naxis, n) && d < naxis
    requires t == Offset(d, u.size) + p < |u.index| && i2 == Part(v.index, d, v.size, v.size)[0]
      && cv2 == Part(v.value, d, v.size, v.size)
    requires ProductsAdded(s, was, n, u, v, weight, d, p)
    requires RowAdded(was, now, n, u.index[t], i2, weight * u.value[t], cv2, |cv2|)
    ensures ProductsAdded(s, now, n, u, v, weight, d, p + 1)
  {
    OffsetInside(d, naxis, v.size);
    hide Start, Grown, ProductsUpTo, RowTerm, Component, Offset;
    forall r, c {:trigger Grown(s, now, n, r, c, ProductsUpTo(u, v, weight, d, p + 1, r, c))} | 0 <= r <= c < n
      ensures Grown(s, now, n, r, c, ProductsUpTo(u, v, weight, d, p + 1, r, c))
    {
      TermIs(u, v, weight, d, p, t, r, c);
      assert Grown(s, was, n, r, c, ProductsUpTo(u, v, weight, d, p, r, c));
      assert Grown(was, now, n, r, c, RowTerm(r, c, u.index[t], i2, weight * u.value[t], cv2, |cv2|));
      GrownTwice(s, was, now, n, r, c, ProductsUpTo(u, v, weight, d, p, r, c),
                 RowTerm(r, c, u.index[t], i2, weight * u.value[t], cv2, |cv2|));
    }
  }

  /** Every element of the triangle has grown by the weighted sum over the axes of the products of its components. */
  ghost predicate OuterAdded(s: seq<real>, s': seq<real>, n: nat, u: Basis, v: Basis, weight: real, naxis: nat) {
    && |u.index| == |u.value| && |v.index| == |v.value| && 0 <= Start(n, n) <= |s| == |s'|
    && (forall r, c :: 0 <= r <= c < n ==> Grown(s, s', n, r, c, Weighted(u, v, weight, naxis, r, c)))
    && forall x :: Start(n, n) <= x < |s| ==> s'[x] == s[x]
  }

  lemma AllProducts(s: seq<real>, now: seq<real>, n: nat, u: Basis, v: Basis, weight: real, naxis: nat)
    requires ProductsAdded(s, now, n, u, v, weight, naxis, 0)
    ensures OuterAdded(s, now, n, u, v, weight, naxis)
  {
    hide Start, Grown, ProductsUpTo, Weighted;
    forall r, c {:trigger Weighted(u, v, weight, naxis, r, c)} | 0 <= r <= c < n
      ensures Grown(s, now, n, r, c, Weighted(u, v, weight, naxis, r, c))
    {
      AxisBegun(u, v, weight, naxis, r, c);
      assert Grown(s, now, n, r, c, ProductsUpTo(u, v, weight, naxis, 0, r, c));
    }
  }

  /** add_alphamat: nothing is added if the first number of either component is negative. */
  method AddAlphamat(alpha: array<real>, naxis: nat, n: nat, weight: real, u: Basis, v: Basis)
    requires naxis > 0 && u.size > 0 && v.size > 0 && HasAxes(u, naxis) && HasAxes(v, naxis)
    requires 0 <= Start(n, n) <= alpha.Length && |u.index| > 0 && |v.index| > 0
    requires u.index[0] >= 0 && v.index[0] >= 0 ==> Numbered(u, v, naxis, n)
    modifies alpha
    ensures u.index[0] < 0 || v.index[0] < 0 ==> alpha[..] == old(alpha[..])
    ensures u.index[0] >= 0 && v.index[0] >= 0 ==> OuterAdded(old(alpha[..]), alpha[..], n, u, v, weight, naxis)
  {
    hide Start, ProductsAdded, RowAdded, OuterAdded, Offset, Numbered;
    if u.index[0] < 0 || v.index[0] < 0 {
      return;
    }
    ghost var s := alpha[..];
    NoProducts(s, n, u, v, weight);
    StartOffset(u.size);
    StartOffset(v.size);
    var ci, ci2 := 0, 0;
    for d := 0 to naxis
      invariant ci == Offset(d, u.size) && ci2 == Offset(d, v.size)
      invariant ProductsAdded(s, alpha[..], n, u, v, weight, d, 0)
    {
      OffsetInside(d, naxis, u.size);
      OffsetInside(d, naxis, v.size);
      for p := 0 to u.size
        invariant ci == Offset(d, u.size) + p && ProductsAdded(s, alpha[..], n, u, v, weight, d, p)
      {
        ghost var was := alpha[..];
        RowInside(u, v, naxis, n, d, ci, ci2);
        var i1, i2, cv2 := u.index[ci], v.index[ci2], v.value[ci2..ci2 + v.size];
        AddRow(alpha, n, i1, i2, weight * u.value[ci], cv2);
        NextRow(s, was, alpha[..], n, u, v, weight, naxis, d, p, ci, i2, cv2);
        ci := ci + 1;
      }
      NextAxis(s, alpha[..], n, u, v, weight, d);
      ci2 := ci2 + v.size;
    }
    AllProducts(s, alpha[..], n, u, v, weight, naxis);
  }

  lemma StartOffset(size: nat)
    ensures Offset(0, size) == 0
  {
  }

  /** The numbers read for one row are in range. */
  lemma RowInside(u: Basis, v: Basis, naxis: nat, n: nat, d: nat, ci: nat, ci2: nat)
    requires HasAxes(u, naxis) && HasAxes(v, naxis) && Numbered(u, v, naxis, n) && d < naxis
    requires ci < |u.index| && ci2 == Offset(d, v.size) && v.size > 0
    ensures 0 <= u.index[ci] < n && ci2 + v.size <= |v.index| && 0 <= v.index[ci2] && v.index[ci2] + v.size <= n
    ensures Part(v.index, d, v.size, v.size) != [] && v.index[ci2] == Part(v.index, d, v.size, v.size)[0]
    ensures Part(v.value, d, v.size, v.size) == v.value[ci2..ci2 + v.size]
  {
    OffsetInside(d, naxis, v.size);
    hide Offset;
    var part := Part(v.index, d, v.size, v.size);
    assert Consecutive(part, n) && part[0] == v.index[ci2];
  }

  // ---- Regularisation ----

  /** The smallest diagonal element above TINY and below BIG with index in [lo, hi), or BIG. */
  ghost function Smallest(s: seq<real>, n: nat, lo: nat, hi: nat): real
    requires lo <= hi <= n && 0 <= Start(n, n) <= |s|
    decreases hi
  {
    if lo == hi then BIG
    else
      var m := Smallest(s, n, lo, hi - 1);
      PackedInside(n, hi - 1, hi - 1);
      var a := s[Packed(n, hi - 1, hi - 1)];
      if a < m && a > TINY then a else m
  }

  lemma {:induction false} SmallestIs(s: seq<real>, n: nat, lo: nat, hi: nat)
    requires lo <= hi <= n && 0 <= Start(n, n) <= |s|
    ensures var m := Smallest(s, n, lo, hi);
      && m <= BIG && (m < BIG ==> exists c :: lo <= c < hi && DiagonalIs(s, n, c, m))
      && forall c :: lo <= c < hi ==> DiagonalAtLeast(s, n, c, m)
    decreases hi
  {
    hide Start;
    if lo < hi {
      SmallestIs(s, n, lo, hi - 1);
      var m, m' := Smallest(s, n, lo, hi), Smallest(s, n, lo, hi - 1);
      if m < m' {
        assert DiagonalIs(s, n, hi - 1, m);
      } else if m' < BIG {
        var c :| lo <= c < hi - 1 && DiagonalIs(s, n, c, m');
        assert DiagonalIs(s, n, c, m);
      }
      forall c | lo <= c < hi ensures DiagonalAtLeast(s, n, c, m) {
        if c < hi - 1 {
          assert DiagonalAtLeast(s, n, c, m');
        }
      }
    }
  }

  ghost predicate DiagonalIs(s: seq<real>, n: nat, c: nat, m: real)
    requires c < n && Start(n, n) <= |s|
  {
    PackedInside(n, c, c);
    s[Packed(n, c, c)] == m > TINY
  }

  ghost predicate DiagonalAtLeast(s: seq<real>, n: nat, c: nat, m: real)
    requires c < n && Start(n, n) <= |s|
  {
    PackedInside(n, c, c);
    s[Packed(n, c, c)] > TINY ==> m <= s[Packed(n, c, c)]
  }

  /** The walk down a part of the diagonal that looks for the smallest element. */
  method FindSmallest(alpha: array<real>, n: nat, lo: nat, hi: nat, cm0: int) returns (m: real, cm: int)
    requires lo <= hi <= n && 0 <= Start(n, n) <= alpha.Length && cm0 == Start(n, lo)
    ensures m == Smallest(alpha[..], n, lo, hi) && cm == Start(n, hi)
  {
    hide Start;
    m, cm := BIG, cm0;
    for c := lo to hi
      invariant cm == Start(n, c) && m == Smallest(alpha[..], n, lo, c)
    {
      PackedInside(n, c, c);
      StartStep(n, c + 1);
      if alpha[cm] < m && alpha[cm] > TINY {
        m := alpha[cm];
      }
      cm := cm + n - c;
    }
  }

  function DiagonalTerm(r: nat, c: nat, lo: nat, hi: nat, add: real): real {
    if r == c && lo <= c < hi then add else 0.0
  }

  ghost predicate DiagonalAdded(s: seq<real>, s': seq<real>, n: nat, lo: nat, hi: nat, add: real) {
    && 0 <= Start(n, n) <= |s| == |s'|
    && forall r, c :: 0 <= r <= c < n ==> Grown(s, s', n, r, c, DiagonalTerm(r, c, lo, hi, add))
  }

  lemma NoDiagonalAdded(s: seq<real>, n: nat, lo: nat, add: real)
    requires 0 <= Start(n, n) <= |s|
    ensures DiagonalAdded(s, s, n, lo, lo, add)
  {
    hide Start;
    forall r, c | 0 <= r <= c < n ensures Grown(s, s, n, r, c, DiagonalTerm(r, c, lo, lo, add)) {
      PackedInside(n, r, c);
    }
  }

  lemma MoreDiagonalAdded(s: seq<real>, was: seq<real>, now: seq<real>, n: nat, lo: nat, k: nat, k1: nat, add: real)
    requires DiagonalAdded(s, was, n, lo, k, add) && lo <= k < n && k1 == k + 1
    requires 0 <= Packed(n, k, k) < Start(n, n) && now == was[Packed(n, k, k) := was[Packed(n, k, k)] + add]
    ensures DiagonalAdded(s, now, n, lo, k1, add)
  {
    hide Start, Grown;
    forall r, c | 0 <= r <= c < n ensures Grown(s, now, n, r, c, DiagonalTerm(r, c, lo, k1, add)) {
      assert Grown(s, was, n, r, c, DiagonalTerm(r, c, lo, k, add));
      ElementAdded(s, was, now, n, k, k, add, r, c, DiagonalTerm(r, c, lo, k, add));
    }
  }

  /** The walk that adds a constant to a part of the diagonal. */
  method AddToDiagonal(alpha: array<real>, n: nat, lo: nat, hi: nat, cm0: int, add: real)
    requires lo <= hi <= n && 0 <= Start(n, n) <= alpha.Length && cm0 == Start(n, lo)
    modifies alpha
    ensures DiagonalAdded(old(alpha[..]), alpha[..], n, lo, hi, add)
  {
    hide Start, DiagonalAdded;
    ghost var s := alpha[..];
    NoDiagonalAdded(s, n, lo, add);
    var cm := cm0;
    for k := lo to hi
      invariant cm == Start(n, k) && DiagonalAdded(s, alpha[..], n, lo, k, add)
    {
      ghost var was := alpha[..];
      PackedInside(n, k, k);
      StartStep(n, k + 1);
      alpha[cm] := alpha[cm] + add;
      MoreDiagonalAdded(s, was, alpha[..], n, lo, k, k + 1, add);
      cm := cm + n - k;
    }
  }

  /** What regul_mat adds to an element: to the diagonal, a fraction of its smallest element on the same side of
      `minindex2`. */
  ghost function Regularisation(s: seq<real>, n: nat, minindex2: nat, factor: real, r: nat, c: nat): real
    requires r <= c < n && minindex2 <= n && 0 <= Start(n, n) <= |s|
  {
    var m := if c < minindex2 then Smallest(s, n, 0, minindex2) else Smallest(s, n, minindex2, n);
    if r == c && m < BIG then m * factor else 0.0
  }

  /** Off the diagonal nothing is added; on it, the same to all elements of a part: `factor` times its smallest element
      between TINY and BIG, or nothing if it has none. */
  lemma RegularisationIs(s: seq<real>, n: nat, minindex2: nat, factor: real, r: nat, c: nat) returns (k: nat)
    requires r <= c < n && minindex2 <= n && 0 <= Start(n, n) <= |s|
    ensures r < c ==> Regularisation(s, n, minindex2, factor, r, c) == 0.0
    ensures var lo, hi := if c < minindex2 then 0 else minindex2, if c < minindex2 then minindex2 else n;
      r == c ==>
        if NoneUsable(s, n, lo, hi) then Regularisation(s, n, minindex2, factor, r, c) == 0.0
        else
          && lo <= k < hi && Usable(s, n, k) && SmallestAt(s, n, lo, hi, k)
          && Regularisation(s, n, minindex2, factor, r, c) == Diagonal(s, n, k) * factor
  {
    hide Start, Smallest, DiagonalIs, DiagonalAtLeast, Diagonal, Packed;
    var lo, hi := if c < minindex2 then 0 else minindex2, if c < minindex2 then minindex2 else n;
    SmallestIs(s, n, lo, hi);
    var m := Smallest(s, n, lo, hi);
    forall j | lo <= j < hi ensures Usable(s, n, j) ==> m <= Diagonal(s, n, j) {
      DiagonalsAre(s, n, j, m);
    }
    k := lo;
    if m < BIG {
      k :| lo <= k < hi && DiagonalIs(s, n, k, m);
      DiagonalsAre(s, n, k, m);
      assert Usable(s, n, k);
    }
  }

  lemma DiagonalsAre(s: seq<real>, n: nat, j: nat, m: real)
    requires j < n && 0 <= Start(n, n) <= |s|
    ensures DiagonalIs(s, n, j, m) ==> Diagonal(s, n, j) == m > TINY
    ensures DiagonalAtLeast(s, n, j, m) && Diagonal(s, n, j) > TINY ==> m <= Diagonal(s, n, j)
  {
    hide Start;
  }

  ghost function Diagonal(s: seq<real>, n: nat, k: nat): real
    requires k < n && 0 <= Start(n, n) <= |s|
  {
    PackedInside(n, k, k);
    s[Packed(n, k, k)]
  }

  ghost predicate Usable(s: seq<real>, n: nat, k: nat)
    requires k < n && 0 <= Start(n, n) <= |s|
  {
    TINY < Diagonal(s, n, k) < BIG
  }

  ghost predicate NoneUsable(s: seq<real>, n: nat, lo: nat, hi: nat)
    requires hi <= n && 0 <= Start(n, n) <= |s|
  {
    forall j :: lo <= j < hi ==> !Usable(s, n, j)
  }

  ghost predicate SmallestAt(s: seq<real>, n: nat, lo: nat, hi: nat, k: nat)
    requires k < n && hi <= n && 0 <= Start(n, n) <= |s|
  {
    forall j :: lo <= j < hi && Usable(s, n, j) ==> Diagonal(s, n, k) <= Diagonal(s, n, j)
  }

  ghost predicate Regularised(s: seq<real>, s': seq<real>, n: nat, minindex2: nat, factor: real) {
    && minindex2 <= n && 0 <= Start(n, n) <= |s| == |s'|
    && forall r, c :: 0 <= r <= c < n ==> Grown(s, s', n, r, c, Regularisation(s, n, minindex2, factor, r, c))
  }

  /** regul_mat, from the start of the field coefficients. */
  method RegulMat(alpha: array<real>, n: nat, minindex2: nat, factor: real)
    requires minindex2 <= n && 0 <= Start(n, n) <= alpha.Length
    modifies alpha
    ensures Regularised(old(alpha[..]), alpha[..], n, minindex2, factor)
  {
    hide Start, Smallest, DiagonalAdded;
    ghost var s := alpha[..];
    StartStep(n, 0);
    var alphamin, cm := FindSmallest(alpha, n, 0, minindex2, 0);
    var alphamin2, _ := FindSmallest(alpha, n, minindex2, n, cm);
    NoDiagonalAdded(s, n, 0, 0.0);
    ghost var add := if alphamin < BIG then alphamin * factor else 0.0;
    ghost var add2 := if alphamin2 < BIG then alphamin2 * factor else 0.0;
    NothingAdded(s, n, 0, minindex2);
    if alphamin < BIG {
      AddToDiagonal(alpha, n, 0, minindex2, 0, alphamin * factor);
    }
    ghost var mid := alpha[..];
    NothingAdded(mid, n, minindex2, n);
    if alphamin2 < BIG {
      StartAsWritten(n, minindex2);
      assert minindex2 * (2 * n + 1 - minindex2) == (2 * n - minindex2 + 1) * minindex2;
      AddToDiagonal(alpha, n, minindex2, n, minindex2 * (2 * n + 1 - minindex2) / 2, alphamin2 * factor);
    }
    BothAdded(s, mid, alpha[..], n, minindex2, factor, add, add2);
  }

  lemma NothingAdded(s: seq<real>, n: nat, lo: nat, hi: nat)
    requires 0 <= Start(n, n) <= |s|
    ensures DiagonalAdded(s, s, n, lo, hi, 0.0)
  {
    hide Start;
    forall r, c | 0 <= r <= c < n ensures Grown(s, s, n, r, c, DiagonalTerm(r, c, lo, hi, 0.0)) {
      PackedInside(n, r, c);
    }
  }

  lemma BothAdded(s: seq<real>, mid: seq<real>, s': seq<real>, n: nat, minindex2: nat, factor: real, add: real,
      add2: real)
    requires minindex2 <= n && DiagonalAdded(s, mid, n, 0, minindex2, add)
      && DiagonalAdded(mid, s', n, minindex2, n, add2)
    requires add == (if Smallest(s, n, 0, minindex2) < BIG then Smallest(s, n, 0, minindex2) * factor else 0.0)
    requires add2 == if Smallest(s, n, minindex2, n) < BIG then Smallest(s, n, minindex2, n) * factor else 0.0
    ensures Regularised(s, s', n, minindex2, factor)
  {
    hide Start, Smallest;
    forall r, c | 0 <= r <= c < n ensures Grown(s, s', n, r, c, Regularisation(s, n, minindex2, factor, r, c)) {
      assert Grown(s, mid, n, r, c, DiagonalTerm(r, c, 0, minindex2, add));
      assert Grown(mid, s', n, r, c, DiagonalTerm(r, c, minindex2, n, add2));
    }
  }
}
