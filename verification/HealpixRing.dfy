// RING numbering of HEALPix pixels: isolatitude rings from north to south
// (xyf2ring64 and ring2xyf64, scamp/src/chealpix.c).

module HealpixRing {
  import opened Basics
  import opened Bits
  import opened HealpixNest

  function Jrll(face: int): int
    requires 0 <= face < 12
  {
    if face < 4 then 2 else if face < 8 then 3 else 4
  }

  function Jpll(face: int): int
    requires 0 <= face < 12
  {
    if face < 4 then 2 * face + 1 else if face < 8 then 2 * (face - 4) else 2 * (face - 8) + 1
  }

  /** The ring of a cell, counted from the north pole; there are 4 * nside - 1. */
  function Ring(nside: nat, c: Cell): int
    requires InFace(nside, c)
  {
    Jrll(c.face) * nside - c.x - c.y - 1
  }

  /** A quarter of the number of pixels in ring `jr`. */
  function Nr(nside: nat, jr: int): int {
    if jr < nside then jr else if jr > 3 * nside then 4 * nside - jr else nside
  }

  function Kshift(nside: nat, jr: int): int {
    if jr < nside || jr > 3 * nside then 0 else (jr - nside) % 2
  }

  /** The number of pixels in the rings before ring `jr`. */
  function NBefore(nside: nat, jr: int): int {
    if jr < nside then 2 * jr * (jr - 1)
    else if jr > 3 * nside then
      var nr := 4 * nside - jr;
      12 * nside * nside - 2 * (nr + 1) * nr
    else 2 * nside * (nside - 1) + (jr - nside) * (4 * nside)
  }

  /** Division of C: truncation towards zero. */
  function Half(v: int): int {
    if v >= 0 then v / 2 else -((-v) / 2)
  }

  /** The position of a cell in its ring, from 1 on. */
  function Phi(nside: nat, c: Cell): int
    requires InFace(nside, c)
  {
    var jr := Ring(nside, c);
    var jp := Half(Jpll(c.face) * Nr(nside, jr) + c.x - c.y + 1 + Kshift(nside, jr));
    if jp > 4 * nside then jp - 4 * nside else if jp < 1 then jp + 4 * nside else jp
  }

  /** xyf2ring64. */
  function Xyf2Ring64(nside: nat, c: Cell): int
    requires InFace(nside, c)
  {
    NBefore(nside, Ring(nside, c)) + Phi(nside, c) - 1
  }

  /** With one pixel a face, the ring number is the number of the face: four around the north pole, four on the equator,
      four around the south pole. */
  lemma RingOfBase(face: int)
    requires 0 <= face < 12
    ensures Xyf2Ring64(1, Cell(face, 0, 0)) == face
  {
    if face < 4 {
      assert Ring(1, Cell(face, 0, 0)) == 1;
    } else if face < 8 {
      assert Ring(1, Cell(face, 0, 0)) == 2;
    } else {
      assert Ring(1, Cell(face, 0, 0)) == 3;
    }
  }

  // ---- From ring positions back to cells ----

  ghost predicate OnRing(nside: nat, jr: int, jp: int) {
    1 <= jr < 4 * nside && 1 <= jp <= 4 * Nr(nside, jr)
  }

  /** The face that ring2xyf64 selects for a position. */
  function FaceOf(nside: nat, jr: int, jp: int): int
    requires nside >= 1 && 1 <= jr < 4 * nside
  {
    if jr < nside then SpecialDiv64(jp - 1, jr)
    else if jr > 3 * nside then 8 + SpecialDiv64(jp - 1, 4 * nside - jr)
    else
      var ire := jr - nside + 1;
      var irm := 2 * nside + 2 - ire;
      var ifm := (jp - ire / 2 + nside - 1) / nside;
      var ifp := (jp - irm / 2 + nside - 1) / nside;
      if ifp == ifm then (if ifp >= 4 then ifp else ifp + 4) else if ifp < ifm then ifp else ifm + 8
  }

  /** `special_div64`: division with quotient below four, by comparisons. */
  function SpecialDiv64(a: int, b: int): int {
    var t := if a >= 2 * b then 1 else 0;
    var a' := a - t * (2 * b);
    2 * t + if a' >= b then 1 else 0
  }

  /** The cell that ring2xyf64 computes for a position on a face. */
  function CellAt(nside: nat, face: int, jr: int, jp: int): Cell
    requires 0 <= face < 12
  {
    var irt := jr - Jrll(face) * nside + 1;
    var ipt := 2 * jp - Jpll(face) * Nr(nside, jr) - Kshift(nside, jr) - 1;
    var ipt' := if ipt >= 2 * nside then ipt - 8 * nside else ipt;
    Cell(face, (ipt' - irt) / 2, (-(ipt' + irt)) / 2)
  }

  lemma SpecialDivIs(a: int, b: int, q: int, r: int)
    requires 0 <= q < 4 && 0 <= r < b && a == Mul(q, b) + r
    ensures SpecialDiv64(a, b) == q
  {
    if q == 0 {
    } else if q == 1 {
    } else if q == 2 {
    } else {
    }
  }

  /** A product, to be hidden where only its name matters. */
  function Mul(a: int, b: int): int {
    a * b
  }

  lemma RingIs(nside: nat, c: Cell)
    requires InFace(nside, c)
    ensures Ring(nside, c) ==
      (if c.face < 4 then 2 * nside else if c.face < 8 then 3 * nside else 4 * nside) - c.x - c.y - 1
  {
  }

  /** What inverts the formula for the position: the difference of the coordinates, up to one turn. */
  lemma CellAtIs(nside: nat, c: Cell, jr: int, jp: int, wrapped: bool)
    requires InFace(nside, c) && jr == Ring(nside, c)
    requires 2 * jp == Mul(Jpll(c.face), Nr(nside, jr)) + c.x - c.y + 1 + Kshift(nside, jr) + if wrapped then 8 * nside
      else 0
    ensures CellAt(nside, c.face, jr, jp) == c
  {
    hide Kshift, Nr, Jpll;
    var jn, k := Jpll(c.face) * Nr(nside, jr), Kshift(nside, jr);
    assert 2 * jp - jn - k - 1 == c.x - c.y + if wrapped then 8 * nside else 0;
  }

  /** `face % 4`, times `m`: the product that the position formula contains twice. */
  function FaceTimes(face: int, m: int): int {
    Mul(face % 4, m)
  }

  lemma JpllTimes(face: int, m: int)
    requires 0 <= face < 12
    ensures Mul(Jpll(face), m) == 2 * FaceTimes(face, m) + if 4 <= face < 8 then 0 else m
  {
  }

  lemma FaceTimesBound(face: int, m: int)
    requires 0 <= face < 12 && 0 <= m
    ensures 0 <= FaceTimes(face, m) <= 3 * m
    ensures face % 4 == 0 ==> FaceTimes(face, m) == 0
    ensures face % 4 >= 1 ==> FaceTimes(face, m) >= m
  {
    var q := face % 4;
    if q == 0 {
    } else if q == 1 {
    } else if q == 2 {
    } else {
    }
  }

  // ---- The polar caps ----

  lemma NorthCell(nside: nat, c: Cell)
    requires InFace(nside, c) && Ring(nside, c) < nside
    ensures var jr := Ring(nside, c); c.face < 4 && Phi(nside, c) == FaceTimes(c.face, jr) + nside - c.y
    ensures OnRing(nside, Ring(nside, c), Phi(nside, c)) && FaceOf(nside, Ring(nside, c), Phi(nside, c)) == c.face
    ensures CellAt(nside, c.face, Ring(nside, c), Phi(nside, c)) == c
  {
    hide FaceTimes, CellAt, SpecialDiv64;
    var jr := Ring(nside, c);
    JpllTimes(c.face, jr);
    FaceTimesBound(c.face, jr);
    var jp := FaceTimes(c.face, jr) + nside - c.y;
    assert Phi(nside, c) == jp;
    FaceTimesIs(c.face, jr);
    SpecialDivIs(jp - 1, jr, c.face % 4, nside - 1 - c.y);
    CellAtIs(nside, c, jr, jp, false);
  }

  lemma FaceTimesIs(face: int, m: int)
    ensures FaceTimes(face, m) == Mul(face % 4, m)
  {
  }

  lemma SouthCell(nside: nat, c: Cell)
    requires InFace(nside, c) && Ring(nside, c) > 3 * nside
    ensures var nr := 4 * nside - Ring(nside, c); c.face >= 8 && Phi(nside, c) == FaceTimes(c.face, nr) + c.x + 1
    ensures OnRing(nside, Ring(nside, c), Phi(nside, c)) && FaceOf(nside, Ring(nside, c), Phi(nside, c)) == c.face
    ensures CellAt(nside, c.face, Ring(nside, c), Phi(nside, c)) == c
  {
    hide FaceTimes, CellAt, SpecialDiv64;
    var nr := 4 * nside - Ring(nside, c);
    JpllTimes(c.face, nr);
    FaceTimesBound(c.face, nr);
    var jp := FaceTimes(c.face, nr) + c.x + 1;
    assert Phi(nside, c) == jp;
    FaceTimesIs(c.face, nr);
    SpecialDivIs(jp - 1, nr, c.face % 4, c.x);
    CellAtIs(nside, c, Ring(nside, c), jp, false);
  }

  // ---- The equatorial belt ----

  /** The two edge-line indices from which ring2xyf64 takes the face, before division by nside. */
  function DescendingEdge(nside: nat, jr: int, jp: int): int {
    jp - (jr - nside + 1) / 2 + nside - 1
  }

  function AscendingEdge(nside: nat, jr: int, jp: int): int {
    jp - (3 * nside + 1 - jr) / 2 + nside - 1
  }

  /** Reading the face off the two edge lines. */
  lemma BeltFaceIs(nside: nat, jr: int, jp: int, qm: int, a: int, qp: int, b: int)
    requires nside >= 1 && nside <= jr <= 3 * nside && 0 <= a < nside && 0 <= b < nside
    requires DescendingEdge(nside, jr, jp) == Mul(qm, nside) + a && AscendingEdge(nside, jr, jp) == Mul(qp, nside) + b
    ensures FaceOf(nside, jr, jp) == if qp == qm then (if qp >= 4 then qp else qp + 4) else if qp < qm then qp
      else qm + 8
  {
    assert qm * nside == nside * qm && qp * nside == nside * qp;
    DivModUnique(DescendingEdge(nside, jr, jp), nside, qm, a);
    DivModUnique(AscendingEdge(nside, jr, jp), nside, qp, b);
  }

  lemma MulIs(a: int, b: int)
    ensures Mul(a, b) == a * b
  {
  }

  lemma NextTimes(q: int, m: int)
    ensures Mul(q + 1, m) == Mul(q, m) + m && Mul(4, m) == 4 * m
  {
  }

  /** The rounding in the edge lines cancels against the shift of every other ring. */
  lemma Edges(nside: nat, jr: int, jp: int, k: int, m: int)
    requires nside <= jr <= 3 * nside && k == (jr - nside) % 2 && 2 * jp == m + k
    ensures 2 * DescendingEdge(nside, jr, jp) == m - (jr - nside) + 2 * nside - 2
    ensures 2 * AscendingEdge(nside, jr, jp) == m + (jr - nside) - 2
  {
    var h := (jr - nside) / 2;
    assert jr - nside == 2 * h + k;
    assert (jr - nside + 1) / 2 == h + k;
    assert (3 * nside + 1 - jr) / 2 == nside - h;
  }

  lemma BeltPhi(nside: nat, c: Cell, jp: int)
    requires InFace(nside, c) && nside <= Ring(nside, c) <= 3 * nside
    requires 2 * jp == Mul(Jpll(c.face), nside) + c.x - c.y + 1 + (Ring(nside, c) - nside) % 2
    requires -2 * nside < jp <= 4 * nside
    ensures Phi(nside, c) == if jp < 1 then jp + 4 * nside else jp
    ensures OnRing(nside, Ring(nside, c), Phi(nside, c))
  {
    hide Jpll, Ring, Mul;
    MulIs(Jpll(c.face), nside);
    var num := Mul(Jpll(c.face), nside) + c.x - c.y + 1 + (Ring(nside, c) - nside) % 2;
    assert Half(num) == jp;
  }

  lemma BeltCellNorth(nside: nat, c: Cell)
    requires InFace(nside, c) && nside <= Ring(nside, c) <= 3 * nside && c.face < 4
    ensures OnRing(nside, Ring(nside, c), Phi(nside, c)) && FaceOf(nside, Ring(nside, c), Phi(nside, c)) == c.face
    ensures CellAt(nside, c.face, Ring(nside, c), Phi(nside, c)) == c
  {
    hide FaceTimes, CellAt, FaceOf, Phi, DescendingEdge, AscendingEdge, Mul, Ring, Jpll;
    RingIs(nside, c);
    var jr := Ring(nside, c);
    var fn, k := FaceTimes(c.face, nside), (jr - nside) % 2;
    JpllTimes(c.face, nside);
    FaceTimesBound(c.face, nside);
    FaceTimesIs(c.face, nside);
    NextTimes(c.face, nside);
    var jp := fn + (nside + c.x - c.y + 1 + k) / 2;
    assert 2 * jp == 2 * fn + nside + c.x - c.y + 1 + k;
    BeltPhi(nside, c, jp);
    Edges(nside, jr, jp, k, 2 * fn + nside + c.x - c.y + 1);
    BeltFaceIs(nside, jr, jp, c.face + 1, c.x, c.face, nside - 1 - c.y);
    CellAtIs(nside, c, jr, jp, false);
  }

  lemma BeltCellSouth(nside: nat, c: Cell)
    requires InFace(nside, c) && nside <= Ring(nside, c) <= 3 * nside && c.face >= 8
    ensures OnRing(nside, Ring(nside, c), Phi(nside, c)) && FaceOf(nside, Ring(nside, c), Phi(nside, c)) == c.face
    ensures CellAt(nside, c.face, Ring(nside, c), Phi(nside, c)) == c
  {
    hide FaceTimes, CellAt, FaceOf, Phi, DescendingEdge, AscendingEdge, Mul, Ring, Jpll;
    RingIs(nside, c);
    var jr := Ring(nside, c);
    var fn, k, g := FaceTimes(c.face, nside), (jr - nside) % 2, c.face % 4;
    JpllTimes(c.face, nside);
    FaceTimesBound(c.face, nside);
    FaceTimesIs(c.face, nside);
    NextTimes(g, nside);
    var jp := fn + (nside + c.x - c.y + 1 + k) / 2;
    assert 2 * jp == 2 * fn + nside + c.x - c.y + 1 + k;
    BeltPhi(nside, c, jp);
    Edges(nside, jr, jp, k, 2 * fn + nside + c.x - c.y + 1);
    BeltFaceIs(nside, jr, jp, g, c.x, g + 1, nside - 1 - c.y);
    CellAtIs(nside, c, jr, jp, false);
  }

  lemma BeltCellMiddle(nside: nat, c: Cell)
    requires InFace(nside, c) && 4 <= c.face < 8
    ensures nside <= Ring(nside, c) <= 3 * nside
    ensures OnRing(nside, Ring(nside, c), Phi(nside, c)) && FaceOf(nside, Ring(nside, c), Phi(nside, c)) == c.face
    ensures CellAt(nside, c.face, Ring(nside, c), Phi(nside, c)) == c
  {
    hide FaceTimes, CellAt, FaceOf, Phi, DescendingEdge, AscendingEdge, Mul, Ring, Jpll;
    RingIs(nside, c);
    var jr := Ring(nside, c);
    var fn, k, g := FaceTimes(c.face, nside), (jr - nside) % 2, c.face % 4;
    JpllTimes(c.face, nside);
    FaceTimesBound(c.face, nside);
    FaceTimesIs(c.face, nside);
    var jp := fn + (c.x - c.y + 1 + k) / 2;
    var m := 2 * fn + c.x - c.y + 1;
    assert 2 * jp == m + k;
    BeltPhi(nside, c, jp);
    if jp >= 1 {
      Edges(nside, jr, jp, k, m);
      BeltFaceIs(nside, jr, jp, g, c.x, g, nside - 1 - c.y);
      CellAtIs(nside, c, jr, jp, false);
    } else {
      NextTimes(4, nside);
      Edges(nside, jr, jp + 4 * nside, k, m + 8 * nside);
      BeltFaceIs(nside, jr, jp + 4 * nside, 4, c.x, 4, nside - 1 - c.y);
      CellAtIs(nside, c, jr, jp + 4 * nside, true);
    }
  }

  /** Every cell lies on a ring, and its position there leads back to it. */
  lemma CellToPosition(nside: nat, c: Cell)
    requires InFace(nside, c)
    ensures OnRing(nside, Ring(nside, c), Phi(nside, c))
    ensures FaceOf(nside, Ring(nside, c), Phi(nside, c)) == c.face
    ensures CellAt(nside, c.face, Ring(nside, c), Phi(nside, c)) == c
  {
    hide Phi, FaceOf, CellAt;
    if Ring(nside, c) < nside {
      NorthCell(nside, c);
    } else if Ring(nside, c) > 3 * nside {
      SouthCell(nside, c);
    } else if c.face < 4 {
      BeltCellNorth(nside, c);
    } else if c.face < 8 {
      BeltCellMiddle(nside, c);
    } else {
      BeltCellSouth(nside, c);
    }
  }

  // ---- Every position belongs to a cell ----

  lemma DivTimes(v: nat, m: nat)
    requires m >= 1
    ensures v == (v / m) * m + v % m && 0 <= v / m && 0 <= v % m < m
  {
    assert v == m * (v / m) + v % m;
  }

  lemma QuotientBelow(v: nat, m: nat, k: nat)
    requires m >= 1 && v < k * m
    ensures v / m < k
  {
    DivTimes(v, m);
    if v / m >= k {
      TimesMonotone(k, v / m, m);
    }
  }

  lemma NorthPosition(nside: nat, jr: int, jp: int) returns (c: Cell)
    requires OnRing(nside, jr, jp) && jr < nside
    ensures InFace(nside, c) && Ring(nside, c) == jr && Phi(nside, c) == jp
  {
    hide Phi, FaceTimes;
    DivTimes(jp - 1, jr);
    QuotientBelow(jp - 1, jr, 4);
    var v := (jp - 1) % jr;
    c := Cell((jp - 1) / jr, nside - jr + v, nside - 1 - v);
    NorthCell(nside, c);
    FaceTimesIs(c.face, jr);
  }

  lemma SouthPosition(nside: nat, jr: int, jp: int) returns (c: Cell)
    requires OnRing(nside, jr, jp) && jr > 3 * nside
    ensures InFace(nside, c) && Ring(nside, c) == jr && Phi(nside, c) == jp
  {
    hide Phi, FaceTimes;
    var nr := 4 * nside - jr;
    DivTimes(jp - 1, nr);
    QuotientBelow(jp - 1, nr, 4);
    var x := (jp - 1) % nr;
    c := Cell(8 + (jp - 1) / nr, x, nr - 1 - x);
    SouthCell(nside, c);
    FaceTimesIs(c.face, nr);
  }

  /** The cell of a northern face between its two edge lines. */
  lemma PlaceNorth(nside: nat, jr: int, jp: int, q: int, fn: int, x: int, b: int) returns (c: Cell)
    requires OnRing(nside, jr, jp) && nside <= jr <= 3 * nside && fn == Mul(q, nside)
    requires 0 <= q < 4 && 0 <= x < nside && 0 <= b < nside
    requires DescendingEdge(nside, jr, jp) == fn + nside + x && AscendingEdge(nside, jr, jp) == fn + b
    ensures InFace(nside, c) && Ring(nside, c) == jr && Phi(nside, c) == jp
  {
    hide Phi, FaceTimes, Jpll, DescendingEdge, AscendingEdge, Mul;
    Edges(nside, jr, jp, (jr - nside) % 2, 2 * jp - (jr - nside) % 2);
    c := Cell(q, x, nside - 1 - b);
    FaceTimesIs(c.face, nside);
    JpllTimes(c.face, nside);
    BeltPhi(nside, c, jp);
  }

  /** The cell of a southern face between its two edge lines. */
  lemma PlaceSouth(nside: nat, jr: int, jp: int, q: int, fn: int, x: int, b: int) returns (c: Cell)
    requires OnRing(nside, jr, jp) && nside <= jr <= 3 * nside && fn == Mul(q, nside)
    requires 0 <= q < 4 && 0 <= x < nside && 0 <= b < nside
    requires DescendingEdge(nside, jr, jp) == fn + x && AscendingEdge(nside, jr, jp) == fn + nside + b
    ensures InFace(nside, c) && Ring(nside, c) == jr && Phi(nside, c) == jp
  {
    hide Phi, FaceTimes, Jpll, DescendingEdge, AscendingEdge, Mul;
    Edges(nside, jr, jp, (jr - nside) % 2, 2 * jp - (jr - nside) % 2);
    c := Cell(8 + q, x, nside - 1 - b);
    FaceTimesIs(c.face, nside);
    JpllTimes(c.face, nside);
    BeltPhi(nside, c, jp);
  }

  /** The cell of an equatorial face between its two edge lines. */
  lemma PlaceMiddle(nside: nat, jr: int, jp: int, q: int, fn: int, x: int, b: int) returns (c: Cell)
    requires OnRing(nside, jr, jp) && nside <= jr <= 3 * nside && fn == Mul(q, nside)
    requires 0 <= q < 4 && 0 <= x < nside && 0 <= b < nside
    requires DescendingEdge(nside, jr, jp) == fn + x && AscendingEdge(nside, jr, jp) == fn + b
    ensures InFace(nside, c) && Ring(nside, c) == jr && Phi(nside, c) == jp
  {
    hide Phi, FaceTimes, Jpll, DescendingEdge, AscendingEdge, Mul;
    Edges(nside, jr, jp, (jr - nside) % 2, 2 * jp - (jr - nside) % 2);
    c := Cell(4 + q, x, nside - 1 - b);
    FaceTimesIs(c.face, nside);
    JpllTimes(c.face, nside);
    BeltPhi(nside, c, jp);
  }

  /** The positions of the first equatorial face before the meridian, where the count wraps around. */
  lemma PlaceWrapped(nside: nat, jr: int, jp: int, x: int, b: int) returns (c: Cell)
    requires OnRing(nside, jr, jp) && nside <= jr <= 3 * nside
    requires 0 <= x < nside && 0 <= b < nside
    requires DescendingEdge(nside, jr, jp) == 4 * nside + x && AscendingEdge(nside, jr, jp) == 4 * nside + b
    ensures InFace(nside, c) && Ring(nside, c) == jr && Phi(nside, c) == jp
  {
    hide Phi, FaceTimes, Jpll, DescendingEdge, AscendingEdge, Mul;
    Edges(nside, jr, jp, (jr - nside) % 2, 2 * jp - (jr - nside) % 2);
    c := Cell(4, x, nside - 1 - b);
    FaceTimesIs(c.face, nside);
    FaceTimesBound(c.face, nside);
    JpllTimes(c.face, nside);
    BeltPhi(nside, c, jp - 4 * nside);
  }

  /** The quotients of the two edge lines differ by at most one and select a face. */
  lemma BeltPosition(nside: nat, jr: int, jp: int) returns (c: Cell)
    requires OnRing(nside, jr, jp) && nside <= jr <= 3 * nside
    ensures InFace(nside, c) && Ring(nside, c) == jr && Phi(nside, c) == jp
  {
    hide Phi, Ring, DescendingEdge, AscendingEdge, Mul;
    var d, a := DescendingEdge(nside, jr, jp), AscendingEdge(nside, jr, jp);
    Edges(nside, jr, jp, (jr - nside) % 2, 2 * jp - (jr - nside) % 2);
    var qm, x := Quotient(d, nside, 5);
    var qp, b := Quotient(a, nside, 5);
    QuotientsClose(nside, d, a);
    NextTimes(qm, nside);
    NextTimes(qp, nside);
    if qp < qm {
      c := PlaceNorth(nside, jr, jp, qp, Mul(qp, nside), x, b);
    } else if qp > qm {
      c := PlaceSouth(nside, jr, jp, qm, Mul(qm, nside), x, b);
    } else if qm == 4 {
      c := PlaceWrapped(nside, jr, jp, x, b);
    } else {
      c := PlaceMiddle(nside, jr, jp, qm, Mul(qm, nside), x, b);
    }
  }

  lemma Quotient(v: nat, m: nat, k: nat) returns (q: nat, r: nat)
    requires m >= 1 && v < k * m
    ensures q == v / m && v == Mul(q, m) + r && r < m && q < k
  {
    DivTimes(v, m);
    QuotientBelow(v, m, k);
    q, r := v / m, v % m;
  }

  lemma QuotientsClose(m: int, v: int, w: int)
    requires m >= 1 && 0 <= v && 0 <= w && -m <= v - w <= m
    ensures -1 <= v / m - w / m <= 1
  {
    DivTimes(v, m);
    DivTimes(w, m);
    if v / m >= w / m + 2 {
      TimesMonotone(w / m + 2, v / m, m);
    } else if w / m >= v / m + 2 {
      TimesMonotone(v / m + 2, w / m, m);
    }
  }

  /** The selected face and the computed coordinates name the cell at that position. */
  lemma PositionToCell(nside: nat, jr: int, jp: int)
    requires nside >= 1 && OnRing(nside, jr, jp)
    ensures 0 <= FaceOf(nside, jr, jp) < 12
    ensures var c := CellAt(nside, FaceOf(nside, jr, jp), jr, jp);
            InFace(nside, c) && Ring(nside, c) == jr && Phi(nside, c) == jp
  {
    hide FaceOf, CellAt, Ring, Phi;
    var c: Cell;
    if jr < nside {
      c := NorthPosition(nside, jr, jp);
    } else if jr > 3 * nside {
      c := SouthPosition(nside, jr, jp);
    } else {
      c := BeltPosition(nside, jr, jp);
    }
    CellToPosition(nside, c);
  }

  // ---- Rings partition the pixel numbers ----

  lemma NextRing(nside: nat, jr: int)
    requires 1 <= jr < 4 * nside - 1
    ensures NBefore(nside, jr + 1) == NBefore(nside, jr) + 4 * Nr(nside, jr)
  {
  }

  lemma FirstAndLastRing(nside: nat)
    requires nside >= 1
    ensures NBefore(nside, 1) == 0
    ensures NBefore(nside, 4 * nside - 1) + 4 * Nr(nside, 4 * nside - 1) == 12 * nside * nside
  {
  }

  lemma {:induction false} RingsApart(nside: nat, jr: int, jr': int)
    requires 1 <= jr < jr' < 4 * nside
    ensures NBefore(nside, jr) + 4 * Nr(nside, jr) <= NBefore(nside, jr')
    decreases jr' - jr
  {
    hide NBefore, Nr;
    NextRing(nside, jr);
    if jr + 1 < jr' {
      RingsApart(nside, jr + 1, jr');
      NrPositive(nside, jr + 1);
    }
  }

  lemma NrPositive(nside: nat, jr: int)
    requires 1 <= jr < 4 * nside
    ensures Nr(nside, jr) >= 1
  {
  }

  /** Positions on rings are in bijection with pixel numbers. */
  lemma PositionNumber(nside: nat, jr: int, jp: int)
    requires nside >= 1 && OnRing(nside, jr, jp)
    ensures 0 <= NBefore(nside, jr) + jp - 1 < 12 * nside * nside
  {
    hide NBefore, Nr;
    FirstAndLastRing(nside);
    if jr > 1 {
      RingsApart(nside, 1, jr);
      NrPositive(nside, 1);
    }
    if jr < 4 * nside - 1 {
      RingsApart(nside, jr, 4 * nside - 1);
      NrPositive(nside, 4 * nside - 1);
    }
  }

  lemma PositionUnique(nside: nat, jr: int, jp: int, jr': int, jp': int)
    requires OnRing(nside, jr, jp) && OnRing(nside, jr', jp')
    requires NBefore(nside, jr) + jp == NBefore(nside, jr') + jp'
    ensures jr == jr' && jp == jp'
  {
    hide NBefore, Nr;
    if jr < jr' {
      RingsApart(nside, jr, jr');
    } else if jr' < jr {
      RingsApart(nside, jr', jr);
    }
  }

  /** xyf2ring64 numbers the cells within [0, 12 nside^2), each differently. */
  lemma Xyf2RingInjective(nside: nat, c: Cell, c': Cell)
    requires InFace(nside, c) && InFace(nside, c')
    ensures 0 <= Xyf2Ring64(nside, c) < 12 * nside * nside
    ensures Xyf2Ring64(nside, c) == Xyf2Ring64(nside, c') ==> c == c'
  {
    hide Ring, Phi, FaceOf, CellAt, NBefore, OnRing;
    CellToPosition(nside, c);
    CellToPosition(nside, c');
    PositionNumber(nside, Ring(nside, c), Phi(nside, c));
    if Xyf2Ring64(nside, c) == Xyf2Ring64(nside, c') {
      PositionUnique(nside, Ring(nside, c), Phi(nside, c), Ring(nside, c'), Phi(nside, c'));
    }
  }

  // ---- The integer square root ----

  predicate IsRoot(v: int, r: int) {
    0 <= r && r * r <= v < (r + 1) * (r + 1)
  }

  /** What is assumed of `(int64_t) sqrt(v + 0.5)` on doubles: exact below 2^50, at most one off above. */
  predicate DoubleRoot(v: int, t: int) {
    && 0 <= t
    && (v < 0x4000000000000 ==> IsRoot(v, t))
    && (IsRoot(v, t) || IsRoot(v, t + 1) || IsRoot(v, t - 1))
  }

  /** `isqrt64`, from the truncated double `t`. */
  method Isqrt64(v: nat, t: nat) returns (root: nat)
    requires DoubleRoot(v, t)
    ensures IsRoot(v, root)
  {
    var res := t;
    if v < 0x4000000000000 {
      return res;
    }
    if res * res > v {
      res := res - 1;
    } else if (res + 1) * (res + 1) <= v {
      res := res + 1;
    }
    return res;
  }

  /** Rounding up half the root finds the polar ring of a pixel. */
  lemma PolarRing(nside: nat, p: int, root: int)
    requires 0 <= p < 2 * nside * (nside - 1) && IsRoot(1 + 2 * p, root)
    ensures var j := (1 + root) / 2; 1 <= j < nside && 2 * j * (j - 1) <= p < 2 * j * (j + 1)
  {
    var j := (1 + root) / 2;
    assert root == 2 * j - 1 || root == 2 * j;
    RootBounds(p, root, j);
    if j >= nside {
      PolarCount(nside, j);
    }
  }

  lemma RootBounds(p: int, root: int, j: int)
    requires 0 <= p && IsRoot(1 + 2 * p, root) && (root == 2 * j - 1 || root == 2 * j)
    ensures 1 <= j && 2 * j * (j - 1) <= p < 2 * j * (j + 1)
  {
    assert (2 * j - 1) * (2 * j - 1) == 2 * (2 * j * (j - 1)) + 1;
    assert (2 * j + 1) * (2 * j + 1) == 2 * (2 * j * (j + 1)) + 1;
    if root == 2 * j - 1 {
      assert (root + 1) * (root + 1) <= (2 * j + 1) * (2 * j + 1);
    } else {
      assert (2 * j - 1) * (2 * j - 1) <= root * root;
    }
  }

  lemma PolarCount(nside: nat, j: int)
    requires j >= nside
    ensures 2 * j * (j - 1) >= 2 * nside * (nside - 1)
  {
  }

  /** What each of the three branches of ring2xyf64 finds: the position on its ring, and the face. */
  ghost predicate Located(nside: nat, pix: int, iring: int, iphi: int, kshift: int, nr: int, faceNum: int)
    requires nside >= 1
  {
    && OnRing(nside, iring, iphi) && NBefore(nside, iring) + iphi - 1 == pix
    && kshift == Kshift(nside, iring) && nr == Nr(nside, iring) && faceNum == FaceOf(nside, iring, iphi)
  }

  method LocateNorth(nside: nat, pix: int, t: nat) returns (iring: int, iphi: int, kshift: int, nr: int, faceNum: int)
    requires nside >= 1 && 0 <= pix < 2 * nside * (nside - 1) && DoubleRoot(1 + 2 * pix, t)
    ensures Located(nside, pix, iring, iphi, kshift, nr, faceNum)
  {
    hide IsRoot, DoubleRoot, SpecialDiv64;
    var root := Isqrt64(1 + 2 * pix, t);
    PolarRing(nside, pix, root);
    iring := (1 + root) / 2;
    iphi := (pix + 1) - 2 * iring * (iring - 1);
    kshift := 0;
    nr := iring;
    faceNum := SpecialDiv64(iphi - 1, nr);
  }

  method LocateBelt(nside: nat, pix: int) returns (iring: int, iphi: int, kshift: int, nr: int, faceNum: int)
    requires nside >= 1
    requires 2 * nside * (nside - 1) <= pix < 12 * nside * nside - 2 * nside * (nside - 1)
    ensures Located(nside, pix, iring, iphi, kshift, nr, faceNum)
  {
    hide NBefore, FaceOf, OnRing;
    var ip := pix - 2 * nside * (nside - 1);
    iring := ip / (4 * nside) + nside;
    iphi := ip % (4 * nside) + 1;
    BeltRing(nside, ip);
    BeltLocated(nside, ip / (4 * nside), ip % (4 * nside), ip / (4 * nside) * (4 * nside));
    kshift := (iring + nside) % 2;
    nr := nside;
    var ire := iring - nside + 1;
    var irm := 2 * nside + 2 - ire;
    var ifm := (iphi - ire / 2 + nside - 1) / nside;
    var ifp := (iphi - irm / 2 + nside - 1) / nside;
    faceNum := if ifp == ifm then (if ifp >= 4 then ifp else ifp + 4) else if ifp < ifm then ifp else ifm + 8;
    BeltFace(nside, iring, iphi, ifm, ifp);
  }

  lemma BeltFace(nside: nat, jr: int, jp: int, ifm: int, ifp: int)
    requires nside >= 1 && nside <= jr <= 3 * nside
    requires ifm == (jp - (jr - nside + 1) / 2 + nside - 1) / nside
    requires ifp == (jp - (2 * nside + 2 - (jr - nside + 1)) / 2 + nside - 1) / nside
    ensures FaceOf(nside, jr, jp) == if ifp == ifm then (if ifp >= 4 then ifp else ifp + 4) else if ifp < ifm then ifp
      else ifm + 8
  {
  }

  lemma BeltLocated(nside: nat, q: int, r: int, p: int)
    requires nside >= 1 && 0 <= q <= 2 * nside && 0 <= r < 4 * nside && p == q * (4 * nside)
    ensures var jr := q + nside;
      && OnRing(nside, jr, r + 1) && NBefore(nside, jr) + r == 2 * nside * (nside - 1) + p + r
        && nside <= jr <= 3 * nside
      && (jr + nside) % 2 == Kshift(nside, jr) && nside == Nr(nside, jr)
  {
    hide NBefore, OnRing;
    BeltNumber(nside, q, r, p);
    assert q + nside + nside == q + 2 * nside;
  }

  lemma BeltNumber(nside: nat, q: int, r: int, p: int)
    requires nside >= 1 && 0 <= q <= 2 * nside && 0 <= r < 4 * nside && p == q * (4 * nside)
    ensures OnRing(nside, q + nside, r + 1) && NBefore(nside, q + nside) + r == 2 * nside * (nside - 1) + p + r
  {
  }

  lemma BeltRing(nside: nat, ip: int)
    requires nside >= 1 && 0 <= ip < 12 * nside * nside - 4 * nside * (nside - 1)
    ensures var q, r := ip / (4 * nside), ip % (4 * nside);
            0 <= q <= 2 * nside && 0 <= r < 4 * nside && ip == q * (4 * nside) + r
  {
    DivTimes(ip, 4 * nside);
    assert 12 * nside * nside - 4 * nside * (nside - 1) == (2 * nside + 1) * (4 * nside);
    QuotientBelow(ip, 4 * nside, 2 * nside + 1);
  }

  method LocateSouth(nside: nat, pix: int, t: nat) returns (iring: int, iphi: int, kshift: int, nr: int, faceNum: int)
    requires nside >= 1 && 12 * nside * nside - 2 * nside * (nside - 1) <= pix < 12 * nside * nside
    requires DoubleRoot(2 * (12 * nside * nside - pix) - 1, t)
    ensures Located(nside, pix, iring, iphi, kshift, nr, faceNum)
  {
    hide IsRoot, DoubleRoot, SpecialDiv64, NBefore, OnRing, FaceOf;
    var ip := 12 * nside * nside - pix;
    var root := Isqrt64(2 * ip - 1, t);
    PolarRing(nside, ip - 1, root);
    iring := (1 + root) / 2;
    SouthLocated(nside, pix, ip, iring, 2 * iring * (iring - 1));
    iphi := 4 * iring + 1 - (ip - 2 * iring * (iring - 1));
    kshift := 0;
    nr := iring;
    iring := 4 * nside - iring;
    faceNum := 8 + SpecialDiv64(iphi - 1, nr);
  }

  lemma SouthLocated(nside: nat, pix: int, ip: int, j: int, p: int)
    requires nside >= 1 && ip == 12 * nside * nside - pix && 1 <= j < nside && p == 2 * j * (j - 1)
      && p <= ip - 1 < 2 * j * (j + 1)
    ensures var jr, jp := 4 * nside - j, 4 * j + 1 - (ip - p);
      && OnRing(nside, jr, jp) && NBefore(nside, jr) + jp - 1 == pix && Kshift(nside, jr) == 0 && Nr(nside, jr) == j
      && FaceOf(nside, jr, jp) == 8 + SpecialDiv64(jp - 1, j)
  {
    hide SpecialDiv64;
    assert 2 * j * (j + 1) == p + 4 * j;
    assert 2 * (j + 1) * j == 2 * j * (j + 1);
  }

  /** ring2xyf64: the cell with the given number, and the only one. `t` is the truncated double of its square root. */
  method Ring2Xyf64(nside: nat, pix: int, t: nat) returns (ix: int, iy: int, faceNum: int)
    requires nside >= 1 && 0 <= pix < 12 * nside * nside
    requires pix < 2 * nside * (nside - 1) ==> DoubleRoot(1 + 2 * pix, t)
    requires pix >= 12 * nside * nside - 2 * nside * (nside - 1) ==> DoubleRoot(2 * (12 * nside * nside - pix) - 1, t)
    ensures InFace(nside, Cell(faceNum, ix, iy)) && Xyf2Ring64(nside, Cell(faceNum, ix, iy)) == pix
    ensures forall c :: InFace(nside, c) && Xyf2Ring64(nside, c) == pix ==> c == Cell(faceNum, ix, iy)
  {
    hide OnRing, NBefore, Kshift, Nr, FaceOf, Ring, Phi, Jrll, Jpll, DoubleRoot;
    var iring, iphi, kshift, nr;
    var ncap := 2 * nside * (nside - 1);
    var npix := 12 * nside * nside;
    if pix < ncap {
      iring, iphi, kshift, nr, faceNum := LocateNorth(nside, pix, t);
    } else if pix < npix - ncap {
      iring, iphi, kshift, nr, faceNum := LocateBelt(nside, pix);
    } else {
      iring, iphi, kshift, nr, faceNum := LocateSouth(nside, pix, t);
    }
    PositionToCell(nside, iring, iphi);
    var irt := iring - Jrll(faceNum) * nside + 1;
    var ipt := 2 * iphi - Jpll(faceNum) * nr - kshift - 1;
    if ipt >= 2 * nside {
      ipt := ipt - 8 * nside;
    }
    ix := (ipt - irt) / 2;
    iy := (-(ipt + irt)) / 2;
    forall c | InFace(nside, c) && Xyf2Ring64(nside, c) == pix ensures c == Cell(faceNum, ix, iy) {
      Xyf2RingInjective(nside, c, Cell(faceNum, ix, iy));
    }
  }

  // ---- 64-bit arithmetic ----

  predicate Fits(v: int) {
    -0x8000000000000000 <= v < 0x8000000000000000
  }

  /** Up to nside 2^29 no intermediate value of xyf2ring64 leaves the range of a 64-bit integer. */
  lemma Xyf2RingFits(nside: nat, c: Cell)
    requires InFace(nside, c) && nside <= 0x20000000
    ensures var jr, nr := Ring(nside, c), Nr(nside, Ring(nside, c));
      && Fits(Jrll(c.face) * nside) && Fits(4 * nside)
      && (jr < nside ==> Fits(2 * nr * (nr - 1)))
      && (jr > 3 * nside ==> Fits(12 * nside * nside) && Fits(2 * (nr + 1) * nr))
      && (nside <= jr <= 3 * nside ==> Fits(2 * nside * (nside - 1)) && Fits((jr - nside) * (4 * nside)))
      && Fits(NBefore(nside, jr))
      && Fits(Jpll(c.face) * nr + c.x - c.y + 1 + Kshift(nside, jr))
      && Fits(Xyf2Ring64(nside, c))
  {
    hide NBefore, Phi, Xyf2Ring64;
    var jr, nr := Ring(nside, c), Nr(nside, Ring(nside, c));
    SquareFits(nside);
    SmallSquares(nside, nr);
    BeltProduct(nside, jr);
    CellToPosition(nside, c);
    PositionNumber(nside, jr, 1);
    Xyf2RingInjective(nside, c, c);
    TimesMonotone(Jpll(c.face), 7, nr);
    TimesMonotone(0, Jpll(c.face), nr);
  }

  predicate AllFit(values: seq<int>) {
    forall k :: 0 <= k < |values| ==> Fits(values[k])
  }

  /** The values that isqrt64 computes from the truncated double. */
  function RootValues(t: int): seq<int> {
    [t, t * t, t - 1, t + 1, (t + 1) * (t + 1)]
  }

  /** Those of special_div64. */
  function DivValues(a: int, b: int): seq<int> {
    [b, 2 * b, a - 2 * b, a]
  }

  /** Those of ring2xyf64 in the north polar cap, with the root that isqrt64 yields. */
  function NorthValues(pix: int, root: int): seq<int> {
    var iring := (1 + root) / 2;
    var iphi := (pix + 1) - 2 * iring * (iring - 1);
    [2 * pix, 1 + 2 * pix, 1 + root, pix + 1, 2 * iring, iring - 1, 2 * iring * (iring - 1), iphi]
      + DivValues(iphi - 1, iring)
  }

  /** Those in the equatorial belt: in row `q` of it, at place `r`. */
  function RowValues(nside: int, q: int, r: int): seq<int>
    requires nside >= 1
  {
    var iring, iphi := q + nside, r + 1;
    var ire := iring - nside + 1;
    var irm := 2 * nside + 2 - ire;
    var nm, np := iphi - ire / 2 + nside - 1, iphi - irm / 2 + nside - 1;
    [q, iring, iphi, iring + nside, ire, 2 * nside + 2, irm, iphi - ire / 2, nm, iphi - irm / 2, np, nm / nside,
      np / nside,
     nm / nside + 8, np / nside + 4]
  }

  function BeltValues(nside: int, pix: int): seq<int>
    requires nside >= 1
  {
    var ip := pix - 2 * nside * (nside - 1);
    [ip, 4 * nside] + RowValues(nside, ip / (4 * nside), ip % (4 * nside))
  }

  /** Those in the south polar cap. */
  function SouthValues(nside: int, pix: int, root: int): seq<int> {
    var ip := 12 * nside * nside - pix;
    var j := (1 + root) / 2;
    var iphi := 4 * j + 1 - (ip - 2 * j * (j - 1));
    [ip, 2 * ip, 2 * ip - 1, 1 + root, 2 * j, j - 1, 2 * j * (j - 1), ip - 2 * j * (j - 1), 4 * j, 4 * j + 1, iphi,
      4 * nside,
     4 * nside - j] + DivValues(iphi - 1, j)
  }

  /** Those before and after the three branches. */
  function CapValues(nside: int): seq<int> {
    [nside - 1, 2 * nside, 2 * nside * (nside - 1), 12 * nside, 12 * nside * nside,
      12 * nside * nside - 2 * nside * (nside - 1)]
  }

  function CellValues(nside: nat, face: int, jr: int, jp: int): seq<int>
    requires 0 <= face < 12
  {
    PlaceValues(nside, Jrll(face) * nside, Jpll(face) * Nr(nside, jr), Kshift(nside, jr), jr, jp)
  }

  function PlaceValues(nside: int, a: int, b: int, kshift: int, jr: int, jp: int): seq<int> {
    var irt := jr - a + 1;
    var ipt0 := 2 * jp - b - kshift - 1;
    var ipt := if ipt0 >= 2 * nside then ipt0 - 8 * nside else ipt0;
    [a, jr - a, irt, 2 * jp, b, 2 * jp - b, 2 * jp - b - kshift, ipt0, 8 * nside, ipt, ipt - irt, ipt + irt,
      -(ipt + irt),
     (ipt - irt) / 2, (-(ipt + irt)) / 2]
  }

  lemma RootFits(v: int, t: nat)
    requires 0 <= v < 0x4000000000000000 && DoubleRoot(v, t)
    ensures AllFit(RootValues(t))
  {
    RootBelow(v, if IsRoot(v, t) then t else if IsRoot(v, t + 1) then t + 1 else t - 1);
    SquareAtLeast(0x80000001, t + 1);
    SquareAtLeast(t + 1, t);
  }

  lemma RootBelow(v: int, r: int)
    requires v < 0x4000000000000000 && IsRoot(v, r)
    ensures r < 0x80000000
  {
    if r >= 0x80000000 {
      SquareAtLeast(r, 0x80000000);
    }
  }

  lemma SquareAtLeast(a: nat, b: nat)
    requires a >= b
    ensures a * a >= b * b >= 0
  {
  }

  /** The numbers of pixels of the polar caps and of all are small enough. */
  lemma CapBounds(nside: nat)
    requires 1 <= nside <= 0x20000000
    ensures 0 <= 2 * nside * (nside - 1) <= 12 * nside * nside - 2 * nside * (nside - 1)
    ensures 2 * nside * (nside - 1) <= 0x0800000000000000 && 12 * nside * nside <= 0x3000000000000000
  {
    SquareFits(nside);
    SmallSquares(nside, nside);
    TimesMonotone(nside, 0x20000000, nside);
  }

  lemma NorthFits(nside: nat, pix: int, root: int)
    requires 1 <= nside <= 0x20000000 && 0 <= pix < 2 * nside * (nside - 1) && IsRoot(1 + 2 * pix, root)
    ensures AllFit(NorthValues(pix, root))
  {
    hide AllFit, NorthValues, IsRoot;
    RootNotNegative(1 + 2 * pix, root);
    CapBounds(nside);
    PolarRing(nside, pix, root);
    var j := (1 + root) / 2;
    PolarFits(pix, j, 2 * j * (j - 1), root);
  }

  lemma RootNotNegative(v: int, root: int)
    requires IsRoot(v, root)
    ensures root >= 0
  {
  }

  lemma PolarFits(pix: int, j: int, p: int, root: int)
    requires j == (1 + root) / 2 && p == 2 * j * (j - 1) && 0 <= root && 1 <= j <= 0x20000000
    requires 0 <= p <= pix < 0x3000000000000000
    ensures AllFit(NorthValues(pix, root))
  {
  }

  lemma SouthFits(nside: nat, pix: int, root: int)
    requires 1 <= nside <= 0x20000000 && 12 * nside * nside - 2 * nside * (nside - 1) <= pix < 12 * nside * nside
    requires IsRoot(2 * (12 * nside * nside - pix) - 1, root)
    ensures AllFit(SouthValues(nside, pix, root))
  {
    hide AllFit, SouthValues, IsRoot;
    var ip := 12 * nside * nside - pix;
    RootNotNegative(2 * ip - 1, root);
    CapBounds(nside);
    PolarRing(nside, ip - 1, root);
    var j := (1 + root) / 2;
    PoleFits(nside, pix, ip, j, 2 * j * (j - 1), root);
  }

  lemma PoleFits(nside: nat, pix: int, ip: int, j: int, p: int, root: int)
    requires j == (1 + root) / 2 && p == 2 * j * (j - 1) && ip == 12 * nside * nside - pix && 0 <= root
    requires 1 <= j < nside <= 0x20000000 && 0 <= p < ip <= 0x3000000000000000
    ensures AllFit(SouthValues(nside, pix, root))
  {
  }

  lemma BeltFits(nside: nat, pix: int)
    requires 1 <= nside <= 0x20000000
    requires 2 * nside * (nside - 1) <= pix < 12 * nside * nside - 2 * nside * (nside - 1)
    ensures AllFit(BeltValues(nside, pix))
  {
    var ip := pix - 2 * nside * (nside - 1);
    BeltRing(nside, ip);
    SquareFits(nside);
    SmallSquares(nside, nside);
    RowFits(nside, ip / (4 * nside), ip % (4 * nside));
    hide RowValues;
  }

  lemma RowFits(nside: nat, q: int, r: int)
    requires 1 <= nside <= 0x20000000 && 0 <= q <= 2 * nside && 0 <= r < 4 * nside
    ensures AllFit(RowValues(nside, q, r))
  {
    QuotientFits(r + 1 - (q + 1) / 2 + nside - 1, nside);
    QuotientFits(r + 1 - (2 * nside + 2 - (q + 1)) / 2 + nside - 1, nside);
  }

  lemma QuotientFits(v: nat, d: nat)
    requires d >= 1
    ensures 0 <= v / d <= v
  {
    DivTimes(v, d);
  }

  /** Up to nside 2^29 no intermediate value of ring2xyf64 leaves the range of a 64-bit integer: before the three
      branches, and in any of them, isqrt64 and special_div64 included. */
  lemma Ring2XyfFits(nside: nat, pix: int, t: nat, root: int)
    requires 1 <= nside <= 0x20000000 && 0 <= pix < 12 * nside * nside
    ensures AllFit(CapValues(nside))
    ensures var v := 1 + 2 * pix; pix < 2 * nside * (nside - 1) && DoubleRoot(v, t) && IsRoot(v, root) ==>
      AllFit(RootValues(t)) && AllFit(NorthValues(pix, root))
    ensures 2 * nside * (nside - 1) <= pix < 12 * nside * nside - 2 * nside * (nside - 1) ==>
      AllFit(BeltValues(nside, pix))
    ensures var v := 2 * (12 * nside * nside - pix) - 1;
      pix >= 12 * nside * nside - 2 * nside * (nside - 1) && DoubleRoot(v, t) && IsRoot(v, root) ==>
        AllFit(RootValues(t)) && AllFit(SouthValues(nside, pix, root))
  {
    hide DoubleRoot, IsRoot, NorthValues, SouthValues, BeltValues, RootValues, AllFit, CapValues;
    CapBounds(nside);
    CapFits(nside);
    var npix, ncap := 12 * nside * nside, 2 * nside * (nside - 1);
    var v, w := 1 + 2 * pix, 2 * (npix - pix) - 1;
    if pix < ncap {
      if DoubleRoot(v, t) && IsRoot(v, root) {
        RootFits(v, t);
        NorthFits(nside, pix, root);
      }
    } else if pix < npix - ncap {
      BeltFits(nside, pix);
    } else if DoubleRoot(w, t) && IsRoot(w, root) {
      RootFits(w, t);
      SouthFits(nside, pix, root);
    }
  }

  lemma CapFits(nside: nat)
    requires 1 <= nside <= 0x20000000
    ensures AllFit(CapValues(nside))
  {
    SquareFits(nside);
    SmallSquares(nside, nside);
  }

  /** Nor does any that it computes after them, from the position on the ring and the face that they yield. */
  lemma CellFits(nside: nat, pix: int, iring: int, iphi: int, kshift: int, nr: int, face: int)
    requires 1 <= nside <= 0x20000000 && Located(nside, pix, iring, iphi, kshift, nr, face) && 0 <= face < 12
    ensures AllFit(CellValues(nside, face, iring, iphi))
  {
    hide NBefore, FaceOf;
    TimesMonotone(Jpll(face), 7, nr);
    TimesMonotone(0, Jpll(face), nr);
    PlaceFits(nside, Jrll(face) * nside, Jpll(face) * nr, kshift, iring, iphi);
    hide *;
  }

  lemma PlaceFits(nside: nat, a: int, b: int, kshift: int, jr: int, jp: int)
    requires 1 <= nside <= 0x20000000 && 0 <= a <= 4 * nside && 0 <= b <= 7 * nside && 0 <= kshift <= 1
    requires 1 <= jr < 4 * nside && 1 <= jp <= 4 * nside
    ensures AllFit(PlaceValues(nside, a, b, kshift, jr, jp))
  {
  }

  lemma SquareFits(nside: nat)
    requires nside <= 0x20000000
    ensures 0 <= 2 * nside * nside <= 4 * nside * nside <= 8 * nside * nside <= 12 * nside * nside <= 0x3000000000000000
  {
    TimesMonotone(nside, 0x20000000, nside);
    TimesMonotone(0, nside, nside);
    var square := nside * nside;
    assert 2 * nside * nside == 2 * square && 4 * nside * nside == 4 * square;
    assert 8 * nside * nside == 8 * square && 12 * nside * nside == 12 * square;
  }

  lemma SmallSquares(nside: nat, nr: int)
    requires 1 <= nr <= nside
    ensures 0 <= 2 * nr * (nr - 1) <= 2 * nside * nside && 0 <= 2 * (nr + 1) * nr <= 4 * nside * nside
    ensures 0 <= 2 * nside * (nside - 1) <= 2 * nside * nside
  {
    assert nr * nr <= nside * nr <= nside * nside;
    assert nr <= nr * nr;
  }

  lemma BeltProduct(nside: nat, jr: int)
    requires nside >= 1
    ensures nside <= jr <= 3 * nside ==> 0 <= (jr - nside) * (4 * nside) <= 8 * nside * nside
  {
    if nside <= jr <= 3 * nside {
      TimesMonotone(jr - nside, 2 * nside, 4 * nside);
      TimesMonotone(0, jr - nside, 4 * nside);
    }
  }

  // ---- RING and NEST ----

  /** The test of nest2ring64 and ring2nest64 is passed by the powers of two and by nothing else. */
  lemma PowerOfTwoTest(nside: nat)
    requires 1 <= nside <= 0x20000000
    ensures And(nside, nside - 1) == 0 <==> exists order :: IsNside(nside, order)
  {
    hide And;
    if And(nside, nside - 1) == 0 {
      var k := OnlyBit(nside);
      Pow29();
      if k > 29 {
        PowMonotone(30, k);
      }
      assert IsNside(nside, k);
    }
    if order :| IsNside(nside, order) {
      AndMask(nside, order);
      DivModUnique(nside, nside, 1, 0);
    }
  }

  /** A number that has no bit in common with its predecessor has only one bit. */
  lemma {:induction false} OnlyBit(v: nat) returns (k: nat)
    requires v >= 1 && And(v, v - 1) == 0
    ensures v == Pow2(k)
    decreases v
  {
    if v == 1 {
      return 0;
    }
    var h := v / 2;
    if v % 2 == 1 {
      AndStep(v, 1, h, v - 1, 0, h);
      AndSelf(h);
    } else {
      AndStep(v, 0, h, v - 1, 1, h - 1);
      k := OnlyBit(h);
      k := k + 1;
    }
  }

  lemma {:induction false} AndSelf(v: nat)
    ensures And(v, v) == v
  {
    if v > 0 {
      AndSelf(v / 2);
    }
  }

  /** nest2ring64; -1 if nside is no power of two. */
  function Nest2Ring64(nside: nat, ipnest: nat): int
    requires 1 <= nside <= 0x20000000 && ipnest < 12 * nside * nside
  {
    if And(nside, nside - 1) != 0 then -1
    else
      NestCell(nside, ipnest);
      Xyf2Ring64(nside, Nest2Xyf64(nside, ipnest))
  }

  lemma NestCell(nside: nat, ipnest: nat)
    requires 1 <= nside <= 0x20000000 && ipnest < 12 * nside * nside && And(nside, nside - 1) == 0
    ensures InFace(nside, Nest2Xyf64(nside, ipnest))
  {
    hide Nest2Xyf64, And, Pow2;
    PowerOfTwoTest(nside);
    var order :| IsNside(nside, order);
    CellRoundTrip(nside, order, ipnest);
  }

  /** ring2nest64: the one NEST number that nest2ring64 takes to `ipring`, or -1 if nside is no power of two. */
  method Ring2Nest64(nside: nat, ipring: int, t: nat) returns (ipnest: int)
    requires 1 <= nside <= 0x20000000 && 0 <= ipring < 12 * nside * nside
    requires ipring < 2 * nside * (nside - 1) ==> DoubleRoot(1 + 2 * ipring, t)
    requires ipring >= 12 * nside * nside - 2 * nside * (nside - 1) ==>
      DoubleRoot(2 * (12 * nside * nside - ipring) - 1, t)
    ensures ipnest == -1 <==> !exists order :: IsNside(nside, order)
    ensures ipnest != -1 ==> 0 <= ipnest < 12 * nside * nside && Nest2Ring64(nside, ipnest) == ipring
    ensures ipnest != -1 ==> forall q: nat :: q < 12 * nside * nside && q != ipnest ==> Nest2Ring64(nside, q) != ipring
  {
    hide Xyf2Nest64, Nest2Xyf64, Xyf2Ring64, And, DoubleRoot, Pow2;
    PowerOfTwoTest(nside);
    if And(nside, nside - 1) != 0 {
      return -1;
    }
    ghost var order :| IsNside(nside, order);
    var ix, iy, face := Ring2Xyf64(nside, ipring, t);
    var c := Cell(face, ix, iy);
    NestRoundTrip(nside, order, c);
    ipnest := Xyf2Nest64(nside, ix, iy, face);
    forall q: nat | q < 12 * nside * nside && q != ipnest
      ensures Nest2Ring64(nside, q) != ipring
    {
      CellRoundTrip(nside, order, q);
    }
  }
}
