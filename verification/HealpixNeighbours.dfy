// The eight neighbours of a HEALPix pixel in NEST numbering (neighbours_nest64, scamp/src/chealpix.c).

module HealpixNeighbours {
  import opened Bits
  import opened HealpixNest

  const NB_XOFFSET: seq<int> := [-1, -1, 0, 1, 1, 1, 0, -1]
  const NB_YOFFSET: seq<int> := [0, 1, 1, 1, 0, -1, -1, -1]

  const NB_FACEARRAY: seq<seq<int>> := [
    [ 8,  9, 10, 11, -1, -1, -1, -1, 10, 11,  8,  9],  // S
    [ 5,  6,  7,  4,  8,  9, 10, 11,  9, 10, 11,  8],  // SE
    [-1, -1, -1, -1,  5,  6,  7,  4, -1, -1, -1, -1],  // E
    [ 4,  5,  6,  7, 11,  8,  9, 10, 11,  8,  9, 10],  // SW
    [ 0,  1,  2,  3,  4,  5,  6,  7,  8,  9, 10, 11],  // centre
    [ 1,  2,  3,  0,  0,  1,  2,  3,  5,  6,  7,  4],  // NE
    [-1, -1, -1, -1,  7,  4,  5,  6, -1, -1, -1, -1],  // W
    [ 3,  0,  1,  2,  3,  0,  1,  2,  4,  5,  6,  7],  // NW
    [ 2,  3,  0,  1, -1, -1, -1, -1,  0,  1,  2,  3]   // N
  ]

  const NB_SWAPARRAY: seq<seq<int>> := [
    [0, 0, 3],  // S
    [0, 0, 6],  // SE
    [0, 0, 0],  // E
    [0, 0, 5],  // SW
    [0, 0, 0],  // centre
    [5, 0, 0],  // NE
    [0, 0, 0],  // W
    [6, 0, 0],  // NW
    [3, 0, 0]   // N
  ]

  datatype MaybeCell = NoCell | SomeCell(cell: Cell)

  /** A coordinate that may have left [0, nside) by one, brought back, and the side it left by. */
  function Wrapped(nside: int, v: int): int {
    if v < 0 then v + nside else if v >= nside then v - nside else v
  }

  function Side(nside: int, v: int): (s: int)
    ensures -1 <= s <= 1
  {
    if v < 0 then -1 else if v >= nside then 1 else 0
  }

  /** Index of the adjacent face in direction (sx, sy); 4 is the face itself. */
  function Nbnum(sx: int, sy: int): (n: nat)
    requires -1 <= sx <= 1 && -1 <= sy <= 1
    ensures n < 9
  {
    4 + sx + 3 * sy
  }

  function FaceAt(nbnum: nat, face: int): int
    requires nbnum < 9 && 0 <= face < 12
  {
    NB_FACEARRAY[nbnum][face]
  }

  function BitsAt(nbnum: nat, face: int): int
    requires nbnum < 9 && 0 <= face < 12
  {
    NB_SWAPARRAY[nbnum][face / 4]
  }

  /** Mirror x (bit 0), mirror y (bit 1), exchange both (bit 2). */
  function Reoriented(nside: int, bits: int, face: int, x: int, y: int): Cell {
    var x' := if bits % 2 == 1 then nside - x - 1 else x;
    var y' := if bits / 2 % 2 == 1 then nside - y - 1 else y;
    if bits / 4 % 2 == 1 then Cell(face, y', x') else Cell(face, x', y')
  }

  /** The pixel reached from `c` by the offset (dx, dy). */
  function Moved(nside: int, c: Cell, dx: int, dy: int): MaybeCell
    requires 0 <= c.face < 12
  {
    var x, y := c.x + dx, c.y + dy;
    var nbnum := Nbnum(Side(nside, x), Side(nside, y));
    var f := FaceAt(nbnum, c.face);
    if f < 0 then NoCell
    else SomeCell(Reoriented(nside, BitsAt(nbnum, c.face), f, Wrapped(nside, x), Wrapped(nside, y)))
  }

  // ---- What the two tables say ----

  /** The linear part of `Reoriented`, applied to a direction and negated: the direction of the way back. */
  function Back(bits: int, dx: int, dy: int): (int, int) {
    var x := if bits % 2 == 1 then dx else -dx;
    var y := if bits / 2 % 2 == 1 then dy else -dy;
    if bits / 4 % 2 == 1 then (y, x) else (x, y)
  }

  function InverseBits(bits: int): int {
    if bits == 5 then 6 else if bits == 6 then 5 else bits
  }

  /** Across side (sx, sy) of `face` lies a face from which the opposite step leads back, with the inverse
      reorientation. */
  predicate Mutual(face: int, sx: int, sy: int)
    requires 0 <= face < 12 && -1 <= sx <= 1 && -1 <= sy <= 1
  {
    var f, bits := FaceAt(Nbnum(sx, sy), face), BitsAt(Nbnum(sx, sy), face);
    var (ex, ey) := Back(bits, sx, sy);
    f >= 0 ==>
      && f < 12 && (bits == 0 || bits == 3 || bits == 5 || bits == 6)
      && -1 <= ex <= 1 && -1 <= ey <= 1
      && FaceAt(Nbnum(ex, ey), f) == face
      && BitsAt(Nbnum(ex, ey), f) == InverseBits(bits)
  }

  lemma MutualNorthWest(face: int, sy: int)
    requires 0 <= face < 4 && -1 <= sy <= 1
    ensures Mutual(face, -1, sy)
  {
  }

  lemma MutualNorthMiddle(face: int, sy: int)
    requires 0 <= face < 4 && -1 <= sy <= 1
    ensures Mutual(face, 0, sy)
  {
  }

  lemma MutualNorthEast(face: int, sy: int)
    requires 0 <= face < 4 && -1 <= sy <= 1
    ensures Mutual(face, 1, sy)
  {
  }

  lemma MutualNorth(face: int, sx: int, sy: int)
    requires 0 <= face < 4 && -1 <= sx <= 1 && -1 <= sy <= 1
    ensures Mutual(face, sx, sy)
  {
    hide Mutual;
    if sx == -1 {
      MutualNorthWest(face, sy);
    } else if sx == 0 {
      MutualNorthMiddle(face, sy);
    } else {
      MutualNorthEast(face, sy);
    }
  }

  lemma MutualEquator(face: int, sx: int, sy: int)
    requires 4 <= face < 8 && -1 <= sx <= 1 && -1 <= sy <= 1
    ensures Mutual(face, sx, sy)
  {
  }

  lemma MutualSouthWest(face: int, sy: int)
    requires 8 <= face < 12 && -1 <= sy <= 1
    ensures Mutual(face, -1, sy)
  {
  }

  lemma MutualSouthMiddle(face: int, sy: int)
    requires 8 <= face < 12 && -1 <= sy <= 1
    ensures Mutual(face, 0, sy)
  {
  }

  lemma MutualSouthEast(face: int, sy: int)
    requires 8 <= face < 12 && -1 <= sy <= 1
    ensures Mutual(face, 1, sy)
  {
  }

  lemma MutualSouth(face: int, sx: int, sy: int)
    requires 8 <= face < 12 && -1 <= sx <= 1 && -1 <= sy <= 1
    ensures Mutual(face, sx, sy)
  {
    hide Mutual;
    if sx == -1 {
      MutualSouthWest(face, sy);
    } else if sx == 0 {
      MutualSouthMiddle(face, sy);
    } else {
      MutualSouthEast(face, sy);
    }
  }

  /** Adjacency of faces is mutual. */
  lemma TablesAreMutual(face: int, sx: int, sy: int)
    requires 0 <= face < 12 && -1 <= sx <= 1 && -1 <= sy <= 1
    ensures Mutual(face, sx, sy)
  {
    hide Mutual;
    if face < 4 {
      MutualNorth(face, sx, sy);
    } else if face < 8 {
      MutualEquator(face, sx, sy);
    } else {
      MutualSouth(face, sx, sy);
    }
  }

  /** The faces around a face are distinct. */
  lemma FacesDistinct(face: int, nbnum: nat, nbnum': nat)
    requires 0 <= face < 12 && nbnum < 9 && nbnum' < 9
    requires FaceAt(nbnum, face) == FaceAt(nbnum', face) >= 0
    ensures nbnum == nbnum'
  {
    if face < 4 {
    } else if face < 8 {
    } else {
    }
  }

  /** Where three faces meet instead of four, the missing face lies in one of two opposite corners. */
  lemma MissingFaces(face: int, nbnum: nat)
    requires 0 <= face < 12 && nbnum < 9 && FaceAt(nbnum, face) < 0
    ensures if 4 <= face < 8 then nbnum == 0 || nbnum == 8 else nbnum == 2 || nbnum == 6
  {
  }

  // ---- Moves by one step ----

  lemma MovedBackStraight(nside: nat, c: Cell, dx: int, dy: int)
    requires 1 <= nside && InFace(nside, c) && -1 <= dx <= 1 && -1 <= dy <= 1
    requires Moved(nside, c, dx, dy).SomeCell?
    requires BitsAt(Nbnum(Side(nside, c.x + dx), Side(nside, c.y + dy)), c.face) == 0
    ensures var q := Moved(nside, c, dx, dy).cell;
            var bits := BitsAt(Nbnum(Side(nside, c.x + dx), Side(nside, c.y + dy)), c.face);
            var (ex, ey) := Back(bits, dx, dy);
            InFace(nside, q) && -1 <= ex <= 1 && -1 <= ey <= 1 && Moved(nside, q, ex, ey) == SomeCell(c)
  {
    hide FaceAt, BitsAt, Nbnum;
    TablesAreMutual(c.face, Side(nside, c.x + dx), Side(nside, c.y + dy));
  }

  lemma MovedBackMirrored(nside: nat, c: Cell, dx: int, dy: int)
    requires 1 <= nside && InFace(nside, c) && -1 <= dx <= 1 && -1 <= dy <= 1
    requires Moved(nside, c, dx, dy).SomeCell?
    requires BitsAt(Nbnum(Side(nside, c.x + dx), Side(nside, c.y + dy)), c.face) == 3
    ensures var q := Moved(nside, c, dx, dy).cell;
            var bits := BitsAt(Nbnum(Side(nside, c.x + dx), Side(nside, c.y + dy)), c.face);
            var (ex, ey) := Back(bits, dx, dy);
            InFace(nside, q) && -1 <= ex <= 1 && -1 <= ey <= 1 && Moved(nside, q, ex, ey) == SomeCell(c)
  {
    hide FaceAt, BitsAt, Nbnum;
    TablesAreMutual(c.face, Side(nside, c.x + dx), Side(nside, c.y + dy));
  }

  lemma MovedBackTurnedOneWay(nside: nat, c: Cell, dx: int, dy: int)
    requires 1 <= nside && InFace(nside, c) && -1 <= dx <= 1 && -1 <= dy <= 1
    requires Moved(nside, c, dx, dy).SomeCell?
    requires BitsAt(Nbnum(Side(nside, c.x + dx), Side(nside, c.y + dy)), c.face) == 5
    ensures var q := Moved(nside, c, dx, dy).cell;
            var bits := BitsAt(Nbnum(Side(nside, c.x + dx), Side(nside, c.y + dy)), c.face);
            var (ex, ey) := Back(bits, dx, dy);
            InFace(nside, q) && -1 <= ex <= 1 && -1 <= ey <= 1 && Moved(nside, q, ex, ey) == SomeCell(c)
  {
    hide FaceAt, BitsAt, Nbnum;
    TablesAreMutual(c.face, Side(nside, c.x + dx), Side(nside, c.y + dy));
  }

  lemma MovedBackTurnedOtherWay(nside: nat, c: Cell, dx: int, dy: int)
    requires 1 <= nside && InFace(nside, c) && -1 <= dx <= 1 && -1 <= dy <= 1
    requires Moved(nside, c, dx, dy).SomeCell?
    requires BitsAt(Nbnum(Side(nside, c.x + dx), Side(nside, c.y + dy)), c.face) == 6
    ensures var q := Moved(nside, c, dx, dy).cell;
            var bits := BitsAt(Nbnum(Side(nside, c.x + dx), Side(nside, c.y + dy)), c.face);
            var (ex, ey) := Back(bits, dx, dy);
            InFace(nside, q) && -1 <= ex <= 1 && -1 <= ey <= 1 && Moved(nside, q, ex, ey) == SomeCell(c)
  {
    hide FaceAt, BitsAt, Nbnum;
    TablesAreMutual(c.face, Side(nside, c.x + dx), Side(nside, c.y + dy));
  }

  /** In the frame of the adjacent face, the way back is again a move by one step. */
  lemma MovedBack(nside: nat, c: Cell, dx: int, dy: int)
    requires 1 <= nside && InFace(nside, c) && -1 <= dx <= 1 && -1 <= dy <= 1
    requires Moved(nside, c, dx, dy).SomeCell?
    ensures var q := Moved(nside, c, dx, dy).cell;
            var bits := BitsAt(Nbnum(Side(nside, c.x + dx), Side(nside, c.y + dy)), c.face);
            var (ex, ey) := Back(bits, dx, dy);
            InFace(nside, q) && -1 <= ex <= 1 && -1 <= ey <= 1 && Moved(nside, q, ex, ey) == SomeCell(c)
  {
    hide FaceAt, BitsAt, Nbnum, Back, Moved;
    var sx, sy := Side(nside, c.x + dx), Side(nside, c.y + dy);
    BitsOfSome(nside, c, dx, dy);
    var bits := BitsAt(Nbnum(sx, sy), c.face);
    if bits == 0 {
      MovedBackStraight(nside, c, dx, dy);
    } else if bits == 3 {
      MovedBackMirrored(nside, c, dx, dy);
    } else if bits == 5 {
      MovedBackTurnedOneWay(nside, c, dx, dy);
    } else {
      MovedBackTurnedOtherWay(nside, c, dx, dy);
    }
  }

  lemma BitsOfSome(nside: nat, c: Cell, dx: int, dy: int)
    requires 1 <= nside && InFace(nside, c) && -1 <= dx <= 1 && -1 <= dy <= 1 && Moved(nside, c, dx, dy).SomeCell?
    ensures BitsAt(Nbnum(Side(nside, c.x + dx), Side(nside, c.y + dy)), c.face) in {0, 3, 5, 6}
  {
    hide FaceAt, BitsAt, Nbnum;
    TablesAreMutual(c.face, Side(nside, c.x + dx), Side(nside, c.y + dy));
  }

  /** Different steps lead to different pixels, and at most one of them leads nowhere. */
  lemma MovedInjective(nside: nat, c: Cell, dx: int, dy: int, dx': int, dy': int)
    requires 2 <= nside && InFace(nside, c)
    requires -1 <= dx <= 1 && -1 <= dy <= 1 && -1 <= dx' <= 1 && -1 <= dy' <= 1
    requires Moved(nside, c, dx, dy) == Moved(nside, c, dx', dy')
    ensures dx == dx' && dy == dy'
  {
    hide FaceAt, BitsAt;
    var nb := Nbnum(Side(nside, c.x + dx), Side(nside, c.y + dy));
    var nb' := Nbnum(Side(nside, c.x + dx'), Side(nside, c.y + dy'));
    if Moved(nside, c, dx, dy).NoCell? {
      MissingFaces(c.face, nb);
      MissingFaces(c.face, nb');
    } else {
      FacesDistinct(c.face, nb, nb');
    }
  }

  // ---- The neighbours of a pixel number ----

  ghost predicate IsPixel(nside: nat, pix: int) {
    0 <= pix < 12 * nside * nside
  }

  /** `nside` is a power of two, as HEALPix demands of NEST numbering, and at most 2^29. */
  ghost predicate NestNside(nside: nat) {
    exists order :: IsNside(nside, order)
  }

  /** Neighbour `i` of pixel `pix`, or -1, by the general path through the tables. */
  ghost function Neighbour(nside: nat, pix: int, i: nat): int
    requires NestNside(nside) && IsPixel(nside, pix) && i < 8
  {
    NeighbourInFace(nside, pix, i);
    match Moved(nside, Nest2Xyf64(nside, pix), NB_XOFFSET[i], NB_YOFFSET[i])
    case NoCell => -1
    case SomeCell(q) => Xyf2Nest64(nside, q.x, q.y, q.face)
  }

  lemma NeighbourInFace(nside: nat, pix: int, i: nat)
    requires NestNside(nside) && IsPixel(nside, pix) && i < 8
    ensures nside >= 1 && InFace(nside, Nest2Xyf64(nside, pix))
    ensures var m := Moved(nside, Nest2Xyf64(nside, pix), NB_XOFFSET[i], NB_YOFFSET[i]);
            m.SomeCell? ==> InFace(nside, m.cell)
  {
    hide Moved, Nest2Xyf64;
    var order :| IsNside(nside, order);
    CellRoundTrip(nside, order, pix);
    OffsetsAreSteps(i);
    if Moved(nside, Nest2Xyf64(nside, pix), NB_XOFFSET[i], NB_YOFFSET[i]).SomeCell? {
      MovedBack(nside, Nest2Xyf64(nside, pix), NB_XOFFSET[i], NB_YOFFSET[i]);
    }
  }

  ghost function Neighbours(nside: nat, pix: int): (s: seq<int>)
    requires NestNside(nside) && IsPixel(nside, pix)
    ensures |s| == 8 && forall i :: 0 <= i < 8 ==> s[i] == Neighbour(nside, pix, i)
  {
    seq(8, i requires 0 <= i < 8 => Neighbour(nside, pix, i))
  }

  /** The index of a non-zero step in the offset tables. */
  function DirectionOf(dx: int, dy: int): (i: nat)
    requires -1 <= dx <= 1 && -1 <= dy <= 1 && (dx, dy) != (0, 0)
    ensures i < 8 && NB_XOFFSET[i] == dx && NB_YOFFSET[i] == dy
  {
    if dx == -1 then (if dy == 0 then 0 else if dy == 1 then 1 else 7)
    else if dx == 0 then (if dy == 1 then 2 else 6)
    else (if dy == 1 then 3 else if dy == 0 then 4 else 5)
  }

  lemma OffsetsAreSteps(i: nat)
    requires i < 8
    ensures -1 <= NB_XOFFSET[i] <= 1 && -1 <= NB_YOFFSET[i] <= 1 && (NB_XOFFSET[i], NB_YOFFSET[i]) != (0, 0)
    ensures forall bits :: Back(bits, NB_XOFFSET[i], NB_YOFFSET[i]) != (0, 0)
  {
  }

  /** Neighbourhood is symmetric. */
  lemma NeighboursSymmetric(nside: nat, p: int, q: int)
    requires NestNside(nside) && IsPixel(nside, p)
    requires q in Neighbours(nside, p) && q != -1
    ensures IsPixel(nside, q) && p in Neighbours(nside, q)
  {
    hide Moved, Back, Nest2Xyf64, Xyf2Nest64, BitsAt;
    var order :| IsNside(nside, order);
    var i :| 0 <= i < 8 && Neighbours(nside, p)[i] == q;
    var dx, dy := NB_XOFFSET[i], NB_YOFFSET[i];
    OffsetsAreSteps(i);
    CellRoundTrip(nside, order, p);
    var c := Nest2Xyf64(nside, p);
    MovedBack(nside, c, dx, dy);
    var d := Moved(nside, c, dx, dy).cell;
    NestRoundTrip(nside, order, d);
    var (ex, ey) := Back(BitsAt(Nbnum(Side(nside, c.x + dx), Side(nside, c.y + dy)), c.face), dx, dy);
    var j := DirectionOf(ex, ey);
    assert Neighbour(nside, q, j) == p;
    assert Neighbours(nside, q)[j] == p;
  }

  /** From nside 2 on, the eight entries are distinct: a pixel has eight neighbours, or seven and one -1. */
  lemma NeighboursDistinct(nside: nat, p: int, i: nat, j: nat)
    requires NestNside(nside) && nside >= 2 && IsPixel(nside, p)
    requires i < j < 8
    ensures Neighbours(nside, p)[i] != Neighbours(nside, p)[j]
    ensures Neighbours(nside, p)[i] != p && Neighbours(nside, p)[j] != p
  {
    hide Moved, Nest2Xyf64, Xyf2Nest64;
    DistinctSteps(i, j);
    NeighbourIs(nside, p, i, NB_XOFFSET[i], NB_YOFFSET[i]);
    NeighbourIs(nside, p, j, NB_XOFFSET[j], NB_YOFFSET[j]);
    var c := Nest2Xyf64(nside, p);
    if Moved(nside, c, NB_XOFFSET[i], NB_YOFFSET[i]) == Moved(nside, c, NB_XOFFSET[j], NB_YOFFSET[j]) {
      MovedInjective(nside, c, NB_XOFFSET[i], NB_YOFFSET[i], NB_XOFFSET[j], NB_YOFFSET[j]);
    }
  }

  lemma DistinctSteps(i: nat, j: nat)
    requires i < j < 8
    ensures (NB_XOFFSET[i], NB_YOFFSET[i]) != (NB_XOFFSET[j], NB_YOFFSET[j])
  {
  }

  /** An entry decodes to the pixel that its step leads to, which is not where it started. */
  lemma NeighbourIs(nside: nat, p: int, i: nat, dx: int, dy: int)
    requires NestNside(nside) && nside >= 2 && IsPixel(nside, p) && i < 8
    requires dx == NB_XOFFSET[i] && dy == NB_YOFFSET[i]
    ensures InFace(nside, Nest2Xyf64(nside, p))
    ensures -1 <= dx <= 1 && -1 <= dy <= 1
    ensures var q, m := Neighbours(nside, p)[i], Moved(nside, Nest2Xyf64(nside, p), dx, dy);
            && (q == -1 <==> m.NoCell?)
            && (q != -1 ==> IsPixel(nside, q) && SomeCell(Nest2Xyf64(nside, q)) == m && q != p)
  {
    hide Moved, Nest2Xyf64, Xyf2Nest64, BitsAt, Nbnum, Back;
    var order :| IsNside(nside, order);
    OffsetsAreSteps(i);
    CellRoundTrip(nside, order, p);
    var c := Nest2Xyf64(nside, p);
    if Moved(nside, c, dx, dy).SomeCell? {
      MovedBack(nside, c, dx, dy);
      NestRoundTrip(nside, order, Moved(nside, c, dx, dy).cell);
      MovedZero(nside, c);
      if Moved(nside, c, dx, dy).cell == c {
        MovedInjective(nside, c, dx, dy, 0, 0);
      }
    }
  }

  lemma MovedZero(nside: nat, c: Cell)
    requires InFace(nside, c)
    ensures Moved(nside, c, 0, 0) == SomeCell(c)
  {
  }

  // ---- The function as written ----

  /** `ilog2`: position of the highest bit. */
  function Ilog2(arg: nat): nat {
    if arg <= 1 then 0 else 1 + Ilog2(arg / 2)
  }

  lemma {:induction false} Ilog2OfPower(order: nat)
    ensures Ilog2(Pow2(order)) == order
  {
    if order > 0 {
      Ilog2OfPower(order - 1);
    }
  }

  /** An interior pixel stays on its face. */
  lemma MovedInside(nside: nat, c: Cell, dx: int, dy: int)
    requires InFace(nside, c) && 0 < c.x < nside - 1 && 0 < c.y < nside - 1 && -1 <= dx <= 1 && -1 <= dy <= 1
    ensures Moved(nside, c, dx, dy) == SomeCell(Cell(c.face, c.x + dx, c.y + dy))
  {
  }

  lemma InteriorNeighbour(nside: nat, pix: int, i: nat, order: nat, c: Cell)
    requires IsNside(nside, order) && IsPixel(nside, pix) && i < 8 && c == Nest2Xyf64(nside, pix) && InFace(nside, c)
    requires 0 < c.x < nside - 1 && 0 < c.y < nside - 1
    ensures var x, y := c.x + NB_XOFFSET[i], c.y + NB_YOFFSET[i];
            0 <= x && 0 <= y && Neighbour(nside, pix, i) == Shl(c.face, 2 * order) + SpreadBits64(x)
              + 2 * SpreadBits64(y)
  {
    hide Moved, Nest2Xyf64, SpreadBits64, Shl, Pow2;
    OffsetsAreSteps(i);
    MovedInside(nside, c, NB_XOFFSET[i], NB_YOFFSET[i]);
    NpfaceIsPower(nside, order);
    ShlIsTimes(c.face, 2 * order);
    assert c.face * nside * nside == nside * nside * c.face;
  }

  /** What one iteration over the tables yields, from the wrapped coordinates and the face index it has formed. */
  lemma NeighbourAsWritten(nside: nat, pix: int, i: nat, c: Cell, x: int, y: int, nbnum: nat)
    requires NestNside(nside) && IsPixel(nside, pix) && i < 8 && nside >= 1 && c == Nest2Xyf64(nside, pix)
      && InFace(nside, c)
    requires x == Wrapped(nside, c.x + NB_XOFFSET[i]) && y == Wrapped(nside, c.y + NB_YOFFSET[i])
    requires nbnum == Nbnum(Side(nside, c.x + NB_XOFFSET[i]), Side(nside, c.y + NB_YOFFSET[i]))
    ensures var f := FaceAt(nbnum, c.face);
            if f < 0 then Neighbour(nside, pix, i) == -1
            else
              var r := Reoriented(nside, BitsAt(nbnum, c.face), f, x, y);
              InFace(nside, r) && Neighbour(nside, pix, i) == Xyf2Nest64(nside, r.x, r.y, f)
  {
    hide Nest2Xyf64, Xyf2Nest64, Wrapped, Side, FaceAt, BitsAt, Nbnum;
    NeighbourInFace(nside, pix, i);
  }

  /** neighbours_nest64, the direct path for pixels inside a face. */
  method InteriorNeighbours(nside: nat, pix: int, c: Cell, neighbours: array<int>)
    requires NestNside(nside) && IsPixel(nside, pix) && neighbours.Length == 8
    requires nside >= 1 && c == Nest2Xyf64(nside, pix) && InFace(nside, c)
    requires 0 < c.x < nside - 1 && 0 < c.y < nside - 1
    modifies neighbours
    ensures neighbours[..] == Neighbours(nside, pix)
  {
    hide Moved, Nest2Xyf64, SpreadBits64, Xyf2Nest64, Neighbour, Shl, Pow2;
    ghost var order :| IsNside(nside, order);
    Ilog2OfPower(order);
    var fpix := Shl(c.face, 2 * Ilog2(nside));
    var px0, pxp, pxm := SpreadBits64(c.x), SpreadBits64(c.x + 1), SpreadBits64(c.x - 1);
    var py0, pyp, pym := 2 * SpreadBits64(c.y), 2 * SpreadBits64(c.y + 1), 2 * SpreadBits64(c.y - 1);
    neighbours[0] := fpix + pxm + py0;
    neighbours[1] := fpix + pxm + pyp;
    neighbours[2] := fpix + px0 + pyp;
    neighbours[3] := fpix + pxp + pyp;
    neighbours[4] := fpix + pxp + py0;
    neighbours[5] := fpix + pxp + pym;
    neighbours[6] := fpix + px0 + pym;
    neighbours[7] := fpix + pxm + pym;
    forall i | 0 <= i < 8 ensures neighbours[i] == Neighbour(nside, pix, i) {
      InteriorNeighbour(nside, pix, i, order, c);
    }
  }

  /** neighbours_nest64, one iteration over the tables. */
  method BorderNeighbour(nside: nat, pix: int, c: Cell, i: nat) returns (q: int)
    requires NestNside(nside) && IsPixel(nside, pix) && i < 8
    requires nside >= 1 && c == Nest2Xyf64(nside, pix) && InFace(nside, c)
    ensures q == Neighbour(nside, pix, i)
  {
    hide Moved, Nest2Xyf64, Xyf2Nest64, Neighbour, FaceAt, BitsAt;
    OffsetsAreSteps(i);
    var x, y, nbnum := c.x + NB_XOFFSET[i], c.y + NB_YOFFSET[i], 4;
    if x < 0 {
      x, nbnum := x + nside, nbnum - 1;
    } else if x >= nside {
      x, nbnum := x - nside, nbnum + 1;
    }
    if y < 0 {
      y, nbnum := y + nside, nbnum - 3;
    } else if y >= nside {
      y, nbnum := y - nside, nbnum + 3;
    }
    NeighbourAsWritten(nside, pix, i, c, x, y, nbnum);
    var f := FaceAt(nbnum, c.face);
    if f < 0 {
      return -1;
    }
    var bits := BitsAt(nbnum, c.face);
    if bits % 2 == 1 {
      x := nside - x - 1;
    }
    if bits / 2 % 2 == 1 {
      y := nside - y - 1;
    }
    if bits / 4 % 2 == 1 {
      x, y := y, x;
    }
    q := Xyf2Nest64(nside, x, y, f);
  }

  /** neighbours_nest64: direct bit spreading inside a face, tables along its border. */
  method NeighboursNest64(nside: nat, pix: int, neighbours: array<int>)
    requires NestNside(nside) && IsPixel(nside, pix) && neighbours.Length == 8
    modifies neighbours
    ensures neighbours[..] == Neighbours(nside, pix)
  {
    hide Nest2Xyf64, Neighbour;
    NeighbourInFace(nside, pix, 0);
    var c := Nest2Xyf64(nside, pix);
    var nsm1 := nside - 1;
    if 0 < c.x < nsm1 && 0 < c.y < nsm1 {
      InteriorNeighbours(nside, pix, c, neighbours);
    } else {
      for i := 0 to 8
        invariant forall k :: 0 <= k < i ==> neighbours[k] == Neighbour(nside, pix, k)
      {
        neighbours[i] := BorderNeighbour(nside, pix, c, i);
      }
    }
  }
}
