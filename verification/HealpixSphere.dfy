// Where the pixels lie: the corners of the cells as points of the sphere, and which pixels touch
// (the layout of faces behind xyf2ring64 and neighbours_nest64, scamp/src/chealpix.c).

module HealpixSphere {
  import opened Bits
  import opened HealpixNest
  import opened HealpixNeighbours
  import opened HealpixRing

  // ---- Corners of cells as points ----

  /** The corners of the cells of a face: those of cell (x, y) are at x or x + 1, and y or y + 1. */
  predicate OnFace(n: nat, face: int, u: int, v: int) {
    0 <= face < 12 && 0 <= u <= n && 0 <= v <= n
  }

  /** The parallel that a corner lies on, from 0 at the north pole to 4 * n at the south pole. */
  function Line(n: nat, face: int, u: int, v: int): int
    requires OnFace(n, face, u, v)
  {
    Jrll(face) * n - u - v
  }

  /** Its place on that parallel, in halves of the distance of two corners of a cell; the parallel is closed after
      8 * Nr(n, line) of them. */
  function Place(n: nat, face: int, u: int, v: int): int
    requires OnFace(n, face, u, v)
  {
    Jpll(face) * Nr(n, Line(n, face, u, v)) + u - v
  }

  /** Two corners, on the same face or on different ones, are the same point of the sphere. */
  predicate SamePoint(n: nat, face: int, u: int, v: int, face': int, u': int, v': int)
    requires OnFace(n, face, u, v) && OnFace(n, face', u', v')
  {
    && Line(n, face, u, v) == Line(n, face', u', v')
    && SamePlace(Nr(n, Line(n, face, u, v)), Place(n, face, u, v), Place(n, face', u', v'))
  }

  predicate SamePlace(m: int, a: int, b: int) {
    a == b || a == b + 8 * m || b == a + 8 * m
  }

  // ---- The same in linear terms ----

  /** `k` quarters of a parallel. */
  function Quarters(k: int, m: int): int {
    if k == 0 then 0 else if k == 1 then 2 * m else if k == 2 then 4 * m else 6 * m
  }

  /** The place less these quarters. */
  function Within(n: nat, face: int, u: int, v: int): int
    requires OnFace(n, face, u, v)
  {
    (if 4 <= face < 8 then 0 else Nr(n, Line(n, face, u, v))) + u - v
  }

  lemma LineIs(n: nat, face: int, u: int, v: int)
    requires OnFace(n, face, u, v)
    ensures Line(n, face, u, v) == (if face < 4 then 2 * n else if face < 8 then 3 * n else 4 * n) - u - v
  {
  }

  lemma JpllIs(face: int, m: int)
    requires 0 <= face < 12
    ensures Jpll(face) * m == Quarters(face % 4, m) + if 4 <= face < 8 then 0 else m
  {
    var k := face % 4;
    if k == 0 {
    } else if k == 1 {
    } else if k == 2 {
    } else {
    }
  }

  lemma PlaceIs(n: nat, face: int, u: int, v: int)
    requires OnFace(n, face, u, v)
    ensures Place(n, face, u, v) == Quarters(face % 4, Nr(n, Line(n, face, u, v))) + Within(n, face, u, v)
    ensures var m := Nr(n, Line(n, face, u, v)); 0 <= m && -2 * m <= Within(n, face, u, v) <= 2 * m
  {
    JpllIs(face, Nr(n, Line(n, face, u, v)));
    LineIs(n, face, u, v);
    hide Quarters, Jpll, Line;
  }

  /** Places that differ by so many quarters are the same. */
  predicate Rotated(e: int, m: int, d: int) {
    if e == 0 then d == 0 else if e == 1 then d == 2 * m else if e == 2 then d == 4 * m || d == -4 * m else d == -2 * m
  }

  lemma RotatedIs(m: int, k: int, a: int, k': int, b: int)
    requires 0 <= m && 0 <= k < 4 && 0 <= k' < 4 && -2 * m <= a <= 2 * m && -2 * m <= b <= 2 * m
    ensures SamePlace(m, Quarters(k, m) + a, Quarters(k', m) + b) <==> Rotated((k' - k) % 4, m, a - b)
  {
    if k == 0 {
    } else if k == 1 {
    } else if k == 2 {
    } else {
    }
  }

  /** When two corners are the same point, without products. */
  lemma SamePointIs(n: nat, face: int, u: int, v: int, face': int, u': int, v': int)
    requires OnFace(n, face, u, v) && OnFace(n, face', u', v')
    ensures SamePoint(n, face, u, v, face', u', v') <==>
      && Line(n, face, u, v) == Line(n, face', u', v')
      && Rotated((face' % 4 - face % 4) % 4, Nr(n, Line(n, face, u, v)),
                 Within(n, face, u, v) - Within(n, face', u', v'))
  {
    hide *;
    SamePointMeans(n, face, u, v, face', u', v');
    PlaceIs(n, face, u, v);
    PlaceIs(n, face', u', v');
    if Line(n, face, u, v) == Line(n, face', u', v') {
      var m, k, k' := Nr(n, Line(n, face, u, v)), face % 4, face' % 4;
      RotatedIs(m, k, Within(n, face, u, v), k', Within(n, face', u', v'));
    }
  }

  lemma SamePointMeans(n: nat, face: int, u: int, v: int, face': int, u': int, v': int)
    requires OnFace(n, face, u, v) && OnFace(n, face', u', v')
    ensures SamePoint(n, face, u, v, face', u', v') <==>
      && Line(n, face, u, v) == Line(n, face', u', v')
      && SamePlace(Nr(n, Line(n, face, u, v)), Place(n, face, u, v), Place(n, face', u', v'))
  {
    hide Line, Place, Nr, SamePlace;
  }

  // ---- Across the borders of a face ----

  /** Mirrored and exchanged as in `Reoriented`, but for corners. */
  function Turned(n: int, bits: int, u: int, v: int): (int, int) {
    var u' := if bits % 2 == 1 then n - u else u;
    var v' := if bits / 2 % 2 == 1 then n - v else v;
    if bits / 4 % 2 == 1 then (v', u') else (u', v')
  }

  /** A corner on side (sx, sy) of a face. */
  predicate OnSide(n: nat, face: int, u: int, v: int, sx: int, sy: int) {
    && OnFace(n, face, u, v) && -1 <= sx <= 1 && -1 <= sy <= 1
    && (sx == 1 ==> u == n) && (sx == -1 ==> u == 0) && (sy == 1 ==> v == n) && (sy == -1 ==> v == 0)
  }

  /** The corner of the adjacent face that is the same point. */
  predicate Across(n: nat, face: int, u: int, v: int, sx: int, sy: int, face': int, u': int, v': int)
    requires 0 <= face < 12 && -1 <= sx <= 1 && -1 <= sy <= 1
  {
    && face' == FaceAt(Nbnum(sx, sy), face)
    && (u', v') == Turned(n, BitsAt(Nbnum(sx, sy), face), u - sx * n, v - sy * n)
  }

  /** Corners of two faces of the north that are the same point. */
  predicate NorthNorth(n: nat, k: int, u: int, v: int, k': int, u': int, v': int) {
    || (k == k' && u == u' && v == v')
    || (k' == (k + 1) % 4 && u == n == v' && u' == v)
    || (k' == (k + 3) % 4 && v == n == u' && v' == u)
    || u == v == u' == v' == n
  }

  /** Of a face of the north and one of the equator. */
  predicate NorthMiddle(n: nat, k: int, u: int, v: int, k': int, u': int, v': int) {
    (k' == k && u == 0 && u' == n && v == v') || (k' == (k + 1) % 4 && v == 0 && v' == n && u == u')
  }

  /** Of a face of the north and one of the south. */
  predicate NorthSouth(n: nat, k: int, u: int, v: int, k': int, u': int, v': int) {
    k' == k && u == v == 0 && u' == v' == n
  }

  /** Of two faces of the equator. */
  predicate MiddleMiddle(n: nat, k: int, u: int, v: int, k': int, u': int, v': int) {
    || (k == k' && u == u' && v == v')
    || (k' == (k + 1) % 4 && u == n == v' && v == 0 == u')
    || (k' == (k + 3) % 4 && v == n == u' && u == 0 == v')
  }

  /** Of a face of the equator and one of the south. */
  predicate MiddleSouth(n: nat, k: int, u: int, v: int, k': int, u': int, v': int) {
    (k' == k && v == 0 && v' == n && u == u') || (k' == (k + 3) % 4 && u == 0 && u' == n && v == v')
  }

  /** Of two faces of the south. */
  predicate SouthSouth(n: nat, k: int, u: int, v: int, k': int, u': int, v': int) {
    || (k == k' && u == u' && v == v')
    || (k' == (k + 1) % 4 && v == 0 == u' && v' == u)
    || (k' == (k + 3) % 4 && u == 0 == v' && u' == v)
    || u == v == u' == v' == 0
  }

  lemma FaceQuarter(k: int)
    requires 0 <= k < 4
    ensures k % 4 == k == (4 + k) % 4 == (8 + k) % 4
  {
  }

  lemma NextQuarter(k: int, k': int)
    requires 0 <= k < 4 && 0 <= k' < 4
    ensures k' == (k + 1) % 4 <==> (k' - k) % 4 == 1
    ensures k' == (k + 3) % 4 <==> (k' - k) % 4 == 3
    ensures k' == k <==> (k' - k) % 4 == 0
  {
  }

  lemma NorthNorthIs(n: nat, k: int, u: int, v: int, k': int, u': int, v': int)
    requires n >= 1 && 0 <= k < 4 && 0 <= k' < 4 && OnFace(n, k, u, v) && OnFace(n, k', u', v')
    ensures SamePoint(n, k, u, v, k', u', v') <==> NorthNorth(n, k, u, v, k', u', v')
  {
    SamePointIs(n, k, u, v, k', u', v');
    LineIs(n, k, u, v);
    LineIs(n, k', u', v');
    FaceQuarter(k);
    FaceQuarter(k');
    hide Line, SamePoint, SamePlace, Place, Quarters, InFace;
    NextQuarter(k, k');
  }

  lemma NorthMiddleIs(n: nat, k: int, u: int, v: int, k': int, u': int, v': int)
    requires n >= 1 && 0 <= k < 4 && 0 <= k' < 4 && OnFace(n, k, u, v) && OnFace(n, 4 + k', u', v')
    ensures SamePoint(n, k, u, v, 4 + k', u', v') <==> NorthMiddle(n, k, u, v, k', u', v')
  {
    SamePointIs(n, k, u, v, 4 + k', u', v');
    LineIs(n, k, u, v);
    LineIs(n, 4 + k', u', v');
    FaceQuarter(k);
    FaceQuarter(k');
    hide Line, SamePoint, SamePlace, Place, Quarters, InFace;
    NextQuarter(k, k');
  }

  lemma NorthSouthIs(n: nat, k: int, u: int, v: int, k': int, u': int, v': int)
    requires n >= 1 && 0 <= k < 4 && 0 <= k' < 4 && OnFace(n, k, u, v) && OnFace(n, 8 + k', u', v')
    ensures SamePoint(n, k, u, v, 8 + k', u', v') <==> NorthSouth(n, k, u, v, k', u', v')
  {
    SamePointIs(n, k, u, v, 8 + k', u', v');
    LineIs(n, k, u, v);
    LineIs(n, 8 + k', u', v');
    FaceQuarter(k);
    FaceQuarter(k');
    hide Line, SamePoint, SamePlace, Place, Quarters, InFace;
    NextQuarter(k, k');
  }

  lemma MiddleMiddleIs(n: nat, k: int, u: int, v: int, k': int, u': int, v': int)
    requires n >= 1 && 0 <= k < 4 && 0 <= k' < 4 && OnFace(n, 4 + k, u, v) && OnFace(n, 4 + k', u', v')
    ensures SamePoint(n, 4 + k, u, v, 4 + k', u', v') <==> MiddleMiddle(n, k, u, v, k', u', v')
  {
    SamePointIs(n, 4 + k, u, v, 4 + k', u', v');
    LineIs(n, 4 + k, u, v);
    LineIs(n, 4 + k', u', v');
    FaceQuarter(k);
    FaceQuarter(k');
    hide Line, SamePoint, SamePlace, Place, Quarters, InFace;
    NextQuarter(k, k');
  }

  lemma MiddleSouthIs(n: nat, k: int, u: int, v: int, k': int, u': int, v': int)
    requires n >= 1 && 0 <= k < 4 && 0 <= k' < 4 && OnFace(n, 4 + k, u, v) && OnFace(n, 8 + k', u', v')
    ensures SamePoint(n, 4 + k, u, v, 8 + k', u', v') <==> MiddleSouth(n, k, u, v, k', u', v')
  {
    SamePointIs(n, 4 + k, u, v, 8 + k', u', v');
    LineIs(n, 4 + k, u, v);
    LineIs(n, 8 + k', u', v');
    FaceQuarter(k);
    FaceQuarter(k');
    hide Line, SamePoint, SamePlace, Place, Quarters, InFace;
    NextQuarter(k, k');
  }

  lemma SouthSouthIs(n: nat, k: int, u: int, v: int, k': int, u': int, v': int)
    requires n >= 1 && 0 <= k < 4 && 0 <= k' < 4 && OnFace(n, 8 + k, u, v) && OnFace(n, 8 + k', u', v')
    ensures SamePoint(n, 8 + k, u, v, 8 + k', u', v') <==> SouthSouth(n, k, u, v, k', u', v')
  {
    SamePointIs(n, 8 + k, u, v, 8 + k', u', v');
    LineIs(n, 8 + k, u, v);
    LineIs(n, 8 + k', u', v');
    FaceQuarter(k);
    FaceQuarter(k');
    hide Line, SamePoint, SamePlace, Place, Quarters, InFace;
    NextQuarter(k, k');
  }

  lemma SamePointBack(n: nat, face: int, u: int, v: int, face': int, u': int, v': int)
    requires OnFace(n, face, u, v) && OnFace(n, face', u', v')
    ensures SamePoint(n, face, u, v, face', u', v') <==> SamePoint(n, face', u', v', face, u, v)
  {
    hide Line, Place, Nr;
  }

  // ---- What the tables say ----

  lemma TableNorth(k: int, sx: int, sy: int)
    requires 0 <= k < 4 && -1 <= sx <= 1 && -1 <= sy <= 1
    ensures FaceAt(Nbnum(sx, sy), k) ==
      if sx == 0 == sy then k else if sx == 1 && sy == 0 then (k + 1) % 4 else if sx == 0 && sy == 1 then (k + 3) % 4
      else if sx == 1 == sy then (k + 2) % 4 else if sx == 0 && sy == -1 then 4 + (k + 1) % 4
      else if sx == -1 && sy == 0 then 4 + k else if sx == -1 == sy then 8 + k else -1
    ensures BitsAt(Nbnum(sx, sy), k) ==
      if sx == 1 && sy == 0 then 5 else if sx == 0 && sy == 1 then 6 else if sx == 1 == sy then 3 else 0
  {
  }

  lemma TableMiddle(k: int, sx: int, sy: int)
    requires 0 <= k < 4 && -1 <= sx <= 1 && -1 <= sy <= 1
    ensures FaceAt(Nbnum(sx, sy), 4 + k) ==
      if sx == 0 == sy then 4 + k else if sx == 1 && sy == 0 then k else if sx == 0 && sy == 1 then (k + 3) % 4
      else if sx == 0 && sy == -1 then 8 + k else if sx == -1 && sy == 0 then 8 + (k + 3) % 4
      else if sx == 1 && sy == -1 then 4 + (k + 1) % 4 else if sx == -1 && sy == 1 then 4 + (k + 3) % 4 else -1
    ensures BitsAt(Nbnum(sx, sy), 4 + k) == 0
  {
  }

  lemma TableSouth(k: int, sx: int, sy: int)
    requires 0 <= k < 4 && -1 <= sx <= 1 && -1 <= sy <= 1
    ensures FaceAt(Nbnum(sx, sy), 8 + k) ==
      if sx == 0 == sy then 8 + k else if sx == 1 && sy == 0 then 4 + (k + 1) % 4 else if sx == 0 && sy == 1 then 4 + k
      else if sx == 1 == sy then k else if sx == 0 && sy == -1 then 8 + (k + 1) % 4
      else if sx == -1 && sy == 0 then 8 + (k + 3) % 4 else if sx == -1 == sy then 8 + (k + 2) % 4 else -1
    ensures BitsAt(Nbnum(sx, sy), 8 + k) ==
      if sx == 0 && sy == -1 then 6 else if sx == -1 && sy == 0 then 5 else if sx == -1 == sy then 3 else 0
  {
  }

  /** Which corner the tables lead to, region by region. */
  lemma FormNorth(n: nat, k: int, u: int, v: int, sx: int, sy: int, face': int, u': int, v': int)
    requires n >= 1 && 0 <= k < 4 && OnSide(n, k, u, v, sx, sy) && face' >= 0
    requires Across(n, k, u, v, sx, sy, face', u', v')
    ensures OnFace(n, face', u', v')
    ensures if face' < 4 then NorthNorth(n, k, u, v, face', u', v')
      else if face' < 8 then NorthMiddle(n, k, u, v, face' - 4, u', v') else NorthSouth(n, k, u, v, face' - 8, u', v')
  {
    TableNorth(k, sx, sy);
    hide FaceAt, BitsAt;
    if sx == 1 {
    } else if sx == 0 {
    } else {
    }
  }

  /** The corner across a border is the same point, by the tables. */
  lemma AcrossNorth(n: nat, k: int, u: int, v: int, sx: int, sy: int, face': int, u': int, v': int)
    requires n >= 1 && 0 <= k < 4 && OnSide(n, k, u, v, sx, sy) && face' >= 0
    requires Across(n, k, u, v, sx, sy, face', u', v')
    ensures OnFace(n, face', u', v') && SamePoint(n, k, u, v, face', u', v')
  {
    FormNorth(n, k, u, v, sx, sy, face', u', v');
    hide Across, SamePoint, NorthNorth, NorthMiddle, NorthSouth;
    if face' < 4 {
      NorthNorthIs(n, k, u, v, face', u', v');
    } else if face' < 8 {
      NorthMiddleIs(n, k, u, v, face' - 4, u', v');
    } else {
      NorthSouthIs(n, k, u, v, face' - 8, u', v');
    }
  }

  lemma FormMiddle(n: nat, k: int, u: int, v: int, sx: int, sy: int, face': int, u': int, v': int)
    requires n >= 1 && 0 <= k < 4 && OnSide(n, 4 + k, u, v, sx, sy) && face' >= 0
    requires Across(n, 4 + k, u, v, sx, sy, face', u', v')
    ensures OnFace(n, face', u', v')
    ensures if face' < 4 then NorthMiddle(n, face', u', v', k, u, v)
      else if face' < 8 then MiddleMiddle(n, k, u, v, face' - 4, u', v') else MiddleSouth(n, k, u, v, face' - 8, u', v')
  {
    TableMiddle(k, sx, sy);
    hide FaceAt, BitsAt;
    if sx == 1 {
    } else if sx == 0 {
    } else {
    }
  }

  lemma AcrossMiddle(n: nat, k: int, u: int, v: int, sx: int, sy: int, face': int, u': int, v': int)
    requires n >= 1 && 0 <= k < 4 && OnSide(n, 4 + k, u, v, sx, sy) && face' >= 0
    requires Across(n, 4 + k, u, v, sx, sy, face', u', v')
    ensures OnFace(n, face', u', v') && SamePoint(n, 4 + k, u, v, face', u', v')
  {
    FormMiddle(n, k, u, v, sx, sy, face', u', v');
    hide Across, SamePoint, NorthMiddle, MiddleMiddle, MiddleSouth;
    if face' < 4 {
      NorthMiddleIs(n, face', u', v', k, u, v);
      SamePointBack(n, face', u', v', 4 + k, u, v);
    } else if face' < 8 {
      MiddleMiddleIs(n, k, u, v, face' - 4, u', v');
    } else {
      MiddleSouthIs(n, k, u, v, face' - 8, u', v');
    }
  }

  lemma FormSouth(n: nat, k: int, u: int, v: int, sx: int, sy: int, face': int, u': int, v': int)
    requires n >= 1 && 0 <= k < 4 && OnSide(n, 8 + k, u, v, sx, sy) && face' >= 0
    requires Across(n, 8 + k, u, v, sx, sy, face', u', v')
    ensures OnFace(n, face', u', v')
    ensures if face' < 4 then NorthSouth(n, face', u', v', k, u, v)
      else if face' < 8 then MiddleSouth(n, face' - 4, u', v', k, u, v) else SouthSouth(n, k, u, v, face' - 8, u', v')
  {
    TableSouth(k, sx, sy);
    hide FaceAt, BitsAt;
    if sx == 1 {
    } else if sx == 0 {
    } else {
    }
  }

  lemma AcrossSouth(n: nat, k: int, u: int, v: int, sx: int, sy: int, face': int, u': int, v': int)
    requires n >= 1 && 0 <= k < 4 && OnSide(n, 8 + k, u, v, sx, sy) && face' >= 0
    requires Across(n, 8 + k, u, v, sx, sy, face', u', v')
    ensures OnFace(n, face', u', v') && SamePoint(n, 8 + k, u, v, face', u', v')
  {
    FormSouth(n, k, u, v, sx, sy, face', u', v');
    hide Across, SamePoint, NorthSouth, MiddleSouth, SouthSouth;
    if face' < 4 {
      NorthSouthIs(n, face', u', v', k, u, v);
      SamePointBack(n, face', u', v', 8 + k, u, v);
    } else if face' < 8 {
      MiddleSouthIs(n, face' - 4, u', v', k, u, v);
      SamePointBack(n, face', u', v', 8 + k, u, v);
    } else {
      SouthSouthIs(n, k, u, v, face' - 8, u', v');
    }
  }

  lemma AcrossIsSame(n: nat, face: int, u: int, v: int, sx: int, sy: int, face': int, u': int, v': int)
    requires n >= 1 && OnSide(n, face, u, v, sx, sy) && face' >= 0 && Across(n, face, u, v, sx, sy, face', u', v')
    ensures OnFace(n, face', u', v') && SamePoint(n, face, u, v, face', u', v')
  {
    hide SamePoint, Across;
    if face < 4 {
      AcrossNorth(n, face, u, v, sx, sy, face', u', v');
    } else if face < 8 {
      AcrossMiddle(n, face - 4, u, v, sx, sy, face', u', v');
    } else {
      AcrossSouth(n, face - 8, u, v, sx, sy, face', u', v');
    }
  }

  /** And if two corners are the same point, the tables lead from one to the other. */
  lemma SameIsAcrossNorth(n: nat, k: int, u: int, v: int, face': int, u': int, v': int) returns (sx: int, sy: int)
    requires n >= 1 && 0 <= k < 4 && OnFace(n, k, u, v) && OnFace(n, face', u', v')
      && SamePoint(n, k, u, v, face', u', v')
    ensures OnSide(n, k, u, v, sx, sy) && Across(n, k, u, v, sx, sy, face', u', v')
  {
    sx, sy := 0, 0;
    hide FaceAt, BitsAt, SamePoint;
    if face' < 4 {
      NorthNorthIs(n, k, u, v, face', u', v');
      if face' == (k + 1) % 4 {
        sx := 1;
      } else if face' == (k + 3) % 4 {
        sy := 1;
      } else if face' != k {
        sx, sy := 1, 1;
      }
    } else if face' < 8 {
      NorthMiddleIs(n, k, u, v, face' - 4, u', v');
      if face' - 4 == k {
        sx := -1;
      } else {
        sy := -1;
      }
    } else {
      NorthSouthIs(n, k, u, v, face' - 8, u', v');
      sx, sy := -1, -1;
    }
    TableNorth(k, sx, sy);
  }

  lemma SameIsAcrossMiddle(n: nat, k: int, u: int, v: int, face': int, u': int, v': int) returns (sx: int, sy: int)
    requires n >= 1 && 0 <= k < 4 && OnFace(n, 4 + k, u, v) && OnFace(n, face', u', v')
      && SamePoint(n, 4 + k, u, v, face', u', v')
    ensures OnSide(n, 4 + k, u, v, sx, sy) && Across(n, 4 + k, u, v, sx, sy, face', u', v')
  {
    sx, sy := 0, 0;
    hide FaceAt, BitsAt, SamePoint;
    if face' < 4 {
      SamePointBack(n, face', u', v', 4 + k, u, v);
      NorthMiddleIs(n, face', u', v', k, u, v);
      if face' == k {
        sx := 1;
      } else {
        sy := 1;
      }
    } else if face' < 8 {
      MiddleMiddleIs(n, k, u, v, face' - 4, u', v');
      if face' - 4 == (k + 1) % 4 {
        sx, sy := 1, -1;
      } else if face' - 4 == (k + 3) % 4 {
        sx, sy := -1, 1;
      }
    } else {
      MiddleSouthIs(n, k, u, v, face' - 8, u', v');
      if face' - 8 == k {
        sy := -1;
      } else {
        sx := -1;
      }
    }
    TableMiddle(k, sx, sy);
  }

  lemma SameIsAcrossSouth(n: nat, k: int, u: int, v: int, face': int, u': int, v': int) returns (sx: int, sy: int)
    requires n >= 1 && 0 <= k < 4 && OnFace(n, 8 + k, u, v) && OnFace(n, face', u', v')
      && SamePoint(n, 8 + k, u, v, face', u', v')
    ensures OnSide(n, 8 + k, u, v, sx, sy) && Across(n, 8 + k, u, v, sx, sy, face', u', v')
  {
    sx, sy := 0, 0;
    hide FaceAt, BitsAt, SamePoint;
    if face' < 4 {
      SamePointBack(n, face', u', v', 8 + k, u, v);
      NorthSouthIs(n, face', u', v', k, u, v);
      sx, sy := 1, 1;
    } else if face' < 8 {
      SamePointBack(n, face', u', v', 8 + k, u, v);
      MiddleSouthIs(n, face' - 4, u', v', k, u, v);
      if face' - 4 == k {
        sy := 1;
      } else {
        sx := 1;
      }
    } else {
      SouthSouthIs(n, k, u, v, face' - 8, u', v');
      if face' - 8 == (k + 1) % 4 {
        sy := -1;
      } else if face' - 8 == (k + 3) % 4 {
        sx := -1;
      } else if face' - 8 != k {
        sx, sy := -1, -1;
      }
    }
    TableSouth(k, sx, sy);
  }

  lemma SameIsAcross(n: nat, face: int, u: int, v: int, face': int, u': int, v': int) returns (sx: int, sy: int)
    requires n >= 1 && OnFace(n, face, u, v) && OnFace(n, face', u', v') && SamePoint(n, face, u, v, face', u', v')
    ensures OnSide(n, face, u, v, sx, sy) && Across(n, face, u, v, sx, sy, face', u', v')
  {
    hide SamePoint, Across;
    if face < 4 {
      sx, sy := SameIsAcrossNorth(n, face, u, v, face', u', v');
    } else if face < 8 {
      sx, sy := SameIsAcrossMiddle(n, face - 4, u, v, face', u', v');
    } else {
      sx, sy := SameIsAcrossSouth(n, face - 8, u, v, face', u', v');
    }
  }

  // ---- Cells that touch ----

  predicate IsCorner(a: int, b: int) {
    0 <= a <= 1 && 0 <= b <= 1
  }

  /** Corner (a, b) of one cell and corner (a', b') of the other are the same point. */
  predicate TouchAt(n: nat, c: Cell, a: int, b: int, d: Cell, a': int, b': int)
    requires InFace(n, c) && InFace(n, d)
  {
    && IsCorner(a, b) && IsCorner(a', b')
    && SamePoint(n, c.face, c.x + a, c.y + b, d.face, d.x + a', d.y + b')
  }

  ghost predicate Touch(n: nat, c: Cell, d: Cell)
    requires InFace(n, c) && InFace(n, d)
  {
    exists a, b, a', b' :: TouchAt(n, c, a, b, d, a', b')
  }

  /** The corner lies in the direction of this step: both ends of a side, or one corner. */
  predicate Facing(dx: int, dy: int, a: int, b: int) {
    IsCorner(a, b) && (dx == 1 ==> a == 1) && (dx == -1 ==> a == 0) && (dy == 1 ==> b == 1) && (dy == -1 ==> b == 0)
  }

  /** How a cell's corner is turned with it. */
  lemma TurnedCorner(n: nat, bits: int, face: int, x: int, y: int, a: int, b: int) returns (a': int, b': int)
    requires IsCorner(a, b)
    ensures IsCorner(a', b')
    ensures var d := Reoriented(n, bits, face, x, y); (d.x + a', d.y + b') == Turned(n, bits, x + a, y + b)
  {
    a', b' := if bits % 2 == 1 then 1 - a else a, if bits / 2 % 2 == 1 then 1 - b else b;
    if bits / 4 % 2 == 1 {
      a', b' := b', a';
    }
  }

  lemma SideOf(n: nat, x: int, dx: int, a: int)
    requires 0 <= x < n && -1 <= dx <= 1 && 0 <= a <= 1 && (dx == 1 ==> a == 1) && (dx == -1 ==> a == 0)
    ensures var s := Side(n, x + dx);
      && Wrapped(n, x + dx) == x + dx - s * n && (s == 1 ==> x + a == n) && (s == -1 ==> x + a == 0)
      && 0 <= a - dx <= 1
  {
  }

  /** A step leads to a cell that shares the side or the corner it crosses. */
  lemma MovedTouches(n: nat, c: Cell, dx: int, dy: int, a: int, b: int) returns (a': int, b': int)
    requires n >= 1 && InFace(n, c) && -1 <= dx <= 1 && -1 <= dy <= 1 && Facing(dx, dy, a, b)
    requires Moved(n, c, dx, dy).SomeCell?
    ensures InFace(n, Moved(n, c, dx, dy).cell) && TouchAt(n, c, a, b, Moved(n, c, dx, dy).cell, a', b')
  {
    hide *;
    MovedIs(n, c, dx, dy);
    FacingSide(n, c, dx, dy, a, b);
    var d, sx, sy := Moved(n, c, dx, dy).cell, Side(n, c.x + dx), Side(n, c.y + dy);
    var bits, x, y := BitsAt(Nbnum(sx, sy), c.face), Wrapped(n, c.x + dx), Wrapped(n, c.y + dy);
    a', b' := TurnedCorner(n, bits, d.face, x, y, a - dx, b - dy);
    AcrossFrom(n, c, a, b, sx, sy, d, a', b', x + (a - dx), y + (b - dy));
    AcrossIsSame(n, c.face, c.x + a, c.y + b, sx, sy, d.face, d.x + a', d.y + b');
    TouchFrom(n, c, a, b, d, a', b');
  }

  lemma FacingSide(n: nat, c: Cell, dx: int, dy: int, a: int, b: int)
    requires n >= 1 && InFace(n, c) && -1 <= dx <= 1 && -1 <= dy <= 1 && Facing(dx, dy, a, b)
    ensures var sx, sy := Side(n, c.x + dx), Side(n, c.y + dy);
      && OnSide(n, c.face, c.x + a, c.y + b, sx, sy) && IsCorner(a, b) && IsCorner(a - dx, b - dy)
      && Wrapped(n, c.x + dx) + (a - dx) == c.x + a - sx * n && Wrapped(n, c.y + dy) + (b - dy) == c.y + b - sy * n
  {
    SideOf(n, c.x, dx, a);
    SideOf(n, c.y, dy, b);
    hide Side, Wrapped;
  }

  lemma AcrossFrom(n: nat, c: Cell, a: int, b: int, sx: int, sy: int, d: Cell, a': int, b': int, x: int, y: int)
    requires 0 <= c.face < 12 && -1 <= sx <= 1 && -1 <= sy <= 1 && d.face == FaceAt(Nbnum(sx, sy), c.face)
    requires x == c.x + a - sx * n && y == c.y + b - sy * n
    requires (d.x + a', d.y + b') == Turned(n, BitsAt(Nbnum(sx, sy), c.face), x, y)
    ensures Across(n, c.face, c.x + a, c.y + b, sx, sy, d.face, d.x + a', d.y + b')
  {
    hide FaceAt, BitsAt, Nbnum, Turned;
  }

  lemma TouchFrom(n: nat, c: Cell, a: int, b: int, d: Cell, a': int, b': int)
    requires InFace(n, c) && InFace(n, d) && IsCorner(a, b) && IsCorner(a', b')
    requires SamePoint(n, c.face, c.x + a, c.y + b, d.face, d.x + a', d.y + b')
    ensures TouchAt(n, c, a, b, d, a', b')
  {
  }

  lemma MovedIs(n: nat, c: Cell, dx: int, dy: int)
    requires n >= 1 && InFace(n, c) && -1 <= dx <= 1 && -1 <= dy <= 1 && Moved(n, c, dx, dy).SomeCell?
    ensures 0 <= c.face < 12 && InFace(n, Moved(n, c, dx, dy).cell)
    ensures var nb, d := Nbnum(Side(n, c.x + dx), Side(n, c.y + dy)), Moved(n, c, dx, dy).cell;
      && FaceAt(nb, c.face) == d.face >= 0
      && d == Reoriented(n, BitsAt(nb, c.face), d.face, Wrapped(n, c.x + dx), Wrapped(n, c.y + dy))
  {
    MovedBack(n, c, dx, dy);
    hide FaceAt, BitsAt, Wrapped, Side, Nbnum, Back;
  }

  /** The cell before it was turned, and its corner. */
  lemma TurnedBack(n: nat, bits: int, d: Cell, a': int, b': int, u: int, v: int)
      returns (x: int, y: int, a: int, b: int)
    requires InFace(n, d) && IsCorner(a', b') && (d.x + a', d.y + b') == Turned(n, bits, u, v)
    ensures 0 <= x < n && 0 <= y < n && IsCorner(a, b) && x + a == u && y + b == v
    ensures Reoriented(n, bits, d.face, x, y) == d
  {
    x, y, a, b := d.x, d.y, a', b';
    if bits / 4 % 2 == 1 {
      x, y, a, b := y, x, b, a;
    }
    if bits % 2 == 1 {
      x, a := n - x - 1, 1 - a;
    }
    if bits / 2 % 2 == 1 {
      y, b := n - y - 1, 1 - b;
    }
  }

  /** A coordinate beyond side `s`, from where a step of at most one leads. */
  lemma StepTo(n: nat, x: int, a: int, x': int, a': int, s: int)
    requires 0 <= x < n && 0 <= x' < n && 0 <= a <= 1 && 0 <= a' <= 1 && -1 <= s <= 1
    requires x' + a' == x + a - s * n && (s == 1 ==> x + a == n) && (s == -1 ==> x + a == 0)
    ensures -1 <= a - a' <= 1 && Side(n, x + a - a') == s && Wrapped(n, x + a - a') == x'
  {
  }

  /** A cell that touches is reached by a step. */
  lemma TouchIsMoved(n: nat, c: Cell, a: int, b: int, d: Cell, a': int, b': int) returns (dx: int, dy: int)
    requires n >= 1 && InFace(n, c) && InFace(n, d) && TouchAt(n, c, a, b, d, a', b')
    ensures -1 <= dx <= 1 && -1 <= dy <= 1 && Moved(n, c, dx, dy) == SomeCell(d)
  {
    hide SamePoint, FaceAt, BitsAt, Turned, Reoriented, Wrapped, Side;
    var sx, sy := SameIsAcross(n, c.face, c.x + a, c.y + b, d.face, d.x + a', d.y + b');
    var nb := Nbnum(sx, sy);
    var x, y, a0, b0 := TurnedBack(n, BitsAt(nb, c.face), d, a', b', c.x + a - sx * n, c.y + b - sy * n);
    StepTo(n, c.x, a, x, a0, sx);
    StepTo(n, c.y, b, y, b0, sy);
    dx, dy := a - a0, b - b0;
    assert c.x + dx == c.x + a - a0 && c.y + dy == c.y + b - b0;
  }

  // ---- Neighbours ----

  /** A corner in the direction of a step. */
  lemma SomeFacing(dx: int, dy: int) returns (a: int, b: int)
    requires -1 <= dx <= 1 && -1 <= dy <= 1
    ensures Facing(dx, dy, a, b)
  {
    a, b := if dx == 1 then 1 else 0, if dy == 1 then 1 else 0;
  }

  /** The step that an entry of the list stands for: west, north-west, and so on. */
  function StepOf(i: nat): (step: (int, int))
    requires i < 8
    ensures -1 <= step.0 <= 1 && -1 <= step.1 <= 1 && step != (0, 0)
  {
    (NB_XOFFSET[i], NB_YOFFSET[i])
  }

  lemma NeighbourStep(nside: nat, p: int, i: nat)
    requires NestNside(nside) && IsPixel(nside, p) && i < 8
    ensures InFace(nside, Nest2Xyf64(nside, p))
    ensures var m := Moved(nside, Nest2Xyf64(nside, p), StepOf(i).0, StepOf(i).1);
      && (m.SomeCell? ==> InFace(nside, m.cell))
      && Neighbours(nside, p)[i] ==
        match m case NoCell => -1 case SomeCell(d) => Xyf2Nest64(nside, d.x, d.y, d.face)
  {
    NeighbourInFace(nside, p, i);
    hide Moved, Nest2Xyf64, Xyf2Nest64, NestNside, IsPixel;
    assert Neighbours(nside, p)[i] == Neighbour(nside, p, i);
  }

  lemma CellPixel(nside: nat, d: Cell)
    requires NestNside(nside) && InFace(nside, d)
    ensures var q := Xyf2Nest64(nside, d.x, d.y, d.face); IsPixel(nside, q) && Nest2Xyf64(nside, q) == d
  {
    var order :| IsNside(nside, order);
    NestRoundTrip(nside, order, d);
    hide Nest2Xyf64, Xyf2Nest64, InFace;
  }

  /** An entry of the list, decoded. */
  lemma EntryIs(nside: nat, p: int, i: nat)
    requires NestNside(nside) && IsPixel(nside, p) && i < 8
    ensures nside >= 1 && InFace(nside, Nest2Xyf64(nside, p))
    ensures var q, m := Neighbours(nside, p)[i], Moved(nside, Nest2Xyf64(nside, p), StepOf(i).0, StepOf(i).1);
      q != -1 ==> IsPixel(nside, q) && InFace(nside, Nest2Xyf64(nside, q)) && m == SomeCell(Nest2Xyf64(nside, q))
  {
    NeighbourStep(nside, p, i);
    var m := Moved(nside, Nest2Xyf64(nside, p), StepOf(i).0, StepOf(i).1);
    PixelCell(nside, p);
    hide Moved, Nest2Xyf64, Xyf2Nest64, NestNside, IsPixel, StepOf, InFace;
    if m.SomeCell? {
      CellPixel(nside, m.cell);
    }
  }

  /** A neighbour shares with the pixel the side or the corner that its direction names. */
  lemma NeighbourFacing(nside: nat, p: int, i: nat, a: int, b: int) returns (a': int, b': int)
    requires NestNside(nside) && IsPixel(nside, p) && i < 8 && Neighbours(nside, p)[i] != -1
    requires Facing(StepOf(i).0, StepOf(i).1, a, b)
    ensures var q := Neighbours(nside, p)[i];
      && InFace(nside, Nest2Xyf64(nside, p)) && IsPixel(nside, q) && InFace(nside, Nest2Xyf64(nside, q))
      && TouchAt(nside, Nest2Xyf64(nside, p), a, b, Nest2Xyf64(nside, q), a', b')
  {
    EntryIs(nside, p, i);
    assert nside >= 1;
    hide *;
    a', b' := MovedTouches(nside, Nest2Xyf64(nside, p), StepOf(i).0, StepOf(i).1, a, b);
  }

  lemma PixelCell(nside: nat, p: int)
    requires NestNside(nside) && IsPixel(nside, p)
    ensures nside >= 1 && p >= 0 && InFace(nside, Nest2Xyf64(nside, p))
    ensures var c := Nest2Xyf64(nside, p); Xyf2Nest64(nside, c.x, c.y, c.face) == p
  {
    var order :| IsNside(nside, order);
    CellRoundTrip(nside, order, p);
    hide Nest2Xyf64, Xyf2Nest64, InFace;
  }

  lemma DirectionIs(dx: int, dy: int) returns (i: nat)
    requires -1 <= dx <= 1 && -1 <= dy <= 1 && (dx, dy) != (0, 0)
    ensures i < 8 && StepOf(i) == (dx, dy)
  {
    i := DirectionOf(dx, dy);
  }

  /** A step that leads to another pixel leads to an entry of the list. */
  lemma StepListed(nside: nat, p: int, q: int, dx: int, dy: int)
    requires NestNside(nside) && IsPixel(nside, p) && IsPixel(nside, q) && p != q && -1 <= dx <= 1 && -1 <= dy <= 1
    requires InFace(nside, Nest2Xyf64(nside, p))
    requires Moved(nside, Nest2Xyf64(nside, p), dx, dy) == SomeCell(Nest2Xyf64(nside, q))
    ensures q in Neighbours(nside, p)
  {
    PixelCell(nside, p);
    PixelCell(nside, q);
    MovedZero(nside, Nest2Xyf64(nside, p));
    hide Moved, Nest2Xyf64, Xyf2Nest64, InFace, NestNside, IsPixel, StepOf, Neighbour;
    var i := DirectionIs(dx, dy);
    NeighbourStep(nside, p, i);
    assert Neighbours(nside, p)[i] == q;
  }

  /** Entries touch. */
  lemma ListedTouches(nside: nat, p: int, q: int)
    requires NestNside(nside) && IsPixel(nside, p) && IsPixel(nside, q) && q in Neighbours(nside, p)
    ensures InFace(nside, Nest2Xyf64(nside, p)) && InFace(nside, Nest2Xyf64(nside, q))
    ensures Touch(nside, Nest2Xyf64(nside, p), Nest2Xyf64(nside, q))
  {
    NotMinusOne(nside, q);
    hide Nest2Xyf64, TouchAt, Neighbour, IsPixel, NestNside, InFace, Moved, StepOf;
    var i :| 0 <= i < 8 && Neighbours(nside, p)[i] == q;
    var a, b := SomeFacing(StepOf(i).0, StepOf(i).1);
    var a', b' := NeighbourFacing(nside, p, i, a, b);
  }

  /** The list holds exactly the pixels that touch: those that share at least one corner on the sphere. */
  lemma NeighboursExactly(nside: nat, p: int, q: int)
    requires NestNside(nside) && IsPixel(nside, p) && IsPixel(nside, q) && p != q
    ensures InFace(nside, Nest2Xyf64(nside, p)) && InFace(nside, Nest2Xyf64(nside, q))
    ensures q in Neighbours(nside, p) <==> Touch(nside, Nest2Xyf64(nside, p), Nest2Xyf64(nside, q))
  {
    hide *;
    PixelCell(nside, p);
    PixelCell(nside, q);
    var c, d := Nest2Xyf64(nside, p), Nest2Xyf64(nside, q);
    if q in Neighbours(nside, p) {
      ListedTouches(nside, p, q);
    }
    if Touch(nside, c, d) {
      var a, b, a', b' := TouchesAt(nside, c, d);
      var dx, dy := TouchIsMoved(nside, c, a, b, d, a', b');
      StepListed(nside, p, q, dx, dy);
    }
  }

  lemma TouchesAt(n: nat, c: Cell, d: Cell) returns (a: int, b: int, a': int, b': int)
    requires InFace(n, c) && InFace(n, d) && Touch(n, c, d)
    ensures TouchAt(n, c, a, b, d, a', b')
  {
    hide TouchAt;
    a, b, a', b' :| TouchAt(n, c, a, b, d, a', b');
  }

  lemma NotMinusOne(nside: nat, q: int)
    requires IsPixel(nside, q)
    ensures q != -1
  {
  }

  // ---- Corners and ring numbers ----

  /** The ring of a cell is the parallel of its western and eastern corners, between those of the others; and its place
      in the ring says where these corners are. */
  lemma CornersOfRing(n: nat, c: Cell)
    requires n >= 1 && InFace(n, c)
    ensures Line(n, c.face, c.x, c.y + 1) == Ring(n, c) == Line(n, c.face, c.x + 1, c.y)
    ensures Line(n, c.face, c.x + 1, c.y + 1) == Ring(n, c) - 1 && Line(n, c.face, c.x, c.y) == Ring(n, c) + 1
    ensures Place(n, c.face, c.x, c.y + 1) + 2 == Place(n, c.face, c.x + 1, c.y)
    ensures SamePlace(Nr(n, Ring(n, c)), Place(n, c.face, c.x + 1, c.y), 2 * Phi(n, c) - Kshift(n, Ring(n, c)))
  {
    PlaceIs(n, c.face, c.x + 1, c.y);
    LineIs(n, c.face, c.x + 1, c.y);
    LineIs(n, c.face, c.x, c.y + 1);
    LineIs(n, c.face, c.x, c.y);
    LineIs(n, c.face, c.x + 1, c.y + 1);
    assert Ring(n, c) == Line(n, c.face, c.x + 1, c.y);
    var jr := Ring(n, c);
    hide Line, Ring;
    HalvedEvenly(n, c, jr);
  }

  lemma FaceTimesQuarters(face: int, m: int)
    requires 0 <= face < 12
    ensures 2 * FaceTimes(face, m) == Quarters(face % 4, m)
  {
    var k := face % 4;
    if k == 0 {
    } else if k == 1 {
    } else if k == 2 {
    } else {
    }
  }

  lemma HalvedEvenly(n: nat, c: Cell, jr: int)
    requires n >= 1 && InFace(n, c) && jr == Ring(n, c)
    ensures SamePlace(Nr(n, jr), Jpll(c.face) * Nr(n, jr) + c.x + 1 - c.y, 2 * Phi(n, c) - Kshift(n, jr))
  {
    RingIs(n, c);
    JpllIs(c.face, Nr(n, jr));
    FaceTimesQuarters(c.face, Nr(n, jr));
    if jr < n {
      NorthCell(n, c);
      hide Ring, Phi, Jpll, FaceTimes, Quarters;
    } else if jr > 3 * n {
      SouthCell(n, c);
      hide Ring, Phi, Jpll, FaceTimes, Quarters;
    } else {
      BeltHalved(n, c, jr);
    }
  }

  lemma BeltHalved(n: nat, c: Cell, jr: int)
    requires n >= 1 && InFace(n, c) && jr == Ring(n, c) && n <= jr <= 3 * n
    ensures SamePlace(n, Jpll(c.face) * n + c.x + 1 - c.y, 2 * Phi(n, c) - (jr - n) % 2)
  {
    RingIs(n, c);
    JpllIs(c.face, n);
    MulIs(Jpll(c.face), n);
    FaceTimesQuarters(c.face, n);
    FaceTimesBound(c.face, n);
    hide Ring, Phi, Jpll, FaceTimes, Quarters, Mul;
    var rest := (if 4 <= c.face < 8 then 0 else n) + c.x - c.y + 1 + (jr - n) % 2;
    assert rest % 2 == 0;
    var jp := FaceTimes(c.face, n) + rest / 2;
    BeltPhi(n, c, jp);
  }
}
