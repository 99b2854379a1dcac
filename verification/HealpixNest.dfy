// NEST numbering of HEALPix pixels: a face number followed by the interleaved bits
// of the in-face coordinates (scamp/src/chealpix.c, 64-bit functions).

module HealpixNest {
  import opened Bits

  // ---- The lookup tables. Each of the four nested macro levels adds one of four offsets. ----

  function At(i: nat, b: nat, c: nat, d: nat): nat
    requires i < 4
  {
    if i == 0 then 0 else if i == 1 then b else if i == 2 then c else d
  }

  /** Entry i of `ctab`. */
  function Ctab(i: nat): nat
    requires i < 256
  {
    At(i % 4, 1, 256, 257) + At(i / 4 % 4, 2, 512, 514) + At(i / 16 % 4, 4, 1024, 1028) + At(i / 64, 8, 2048, 2056)
  }

  /** Entry i of `utab`: four hexadecimal digits out of 0, 1, 4 and 5. */
  function Utab(i: nat): nat
    requires i < 256
  {
    At(i % 4, 1, 4, 5) + 0x10 * At(i / 4 % 4, 1, 4, 5) + 0x100 * At(i / 16 % 4, 1, 4, 5) + 0x1000 * At(i / 64, 1, 4, 5)
  }

  // ---- The 64-bit functions ----

  /** The lowest byte, `v & 0xff`. */
  function Byte(v: nat): (b: nat)
    ensures b == v % 0x100
  {
    assert Pow2(8) == 0x100;
    AndMask(v, 8);
    And(v, 0xff)
  }

  /** `spread_bits64`; `v` is a non-negative C int. */
  function SpreadBits64(v: nat): nat {
    Or(Or(Or(Utab(Byte(v)),
             Shl(Utab(Byte(v / 0x100)), 16)),
          Shl(Utab(Byte(v / 0x10000)), 32)),
       Shl(Utab(Byte(v / 0x1000000)), 48))
  }

  /** `compress_bits64`. */
  function CompressBits64(v: nat): nat {
    var masked := And(v, 0x5555555555555555);
    var raw := Or(masked, masked / 0x8000);
    Or(Or(Or(Ctab(Byte(raw)),
             Shl(Ctab(Byte(raw / 0x100)), 4)),
          Shl(Ctab(Byte(raw / 0x100000000)), 16)),
       Shl(Ctab(Byte(raw / 0x10000000000)), 20))
  }

  function Xyf2Nest64(nside: nat, ix: nat, iy: nat, face: nat): int {
    face * nside * nside + SpreadBits64(ix) + 2 * SpreadBits64(iy)
  }

  /** A pixel as a face and coordinates inside it. */
  datatype Cell = Cell(face: int, x: int, y: int)

  function Nest2Xyf64(nside: nat, pix: nat): Cell
    requires nside >= 1
  {
    var npface := nside * nside;
    MulAtLeast(nside, nside);
    var inface := And(pix, npface - 1);
    Cell(pix / npface, CompressBits64(inface), CompressBits64(inface / 2))
  }

  // ---- The tables interleave ----

  lemma AtBits(a: nat, b: nat)
    requires a < 2 && b < 2
    ensures At(a + 2 * b, 1, 4, 5) == a + 4 * b
  {
  }

  /** Splitting an index into its base-4 digits. */
  lemma Digits(i: nat, p: nat, q: nat, r: nat, s: nat)
    requires p < 4 && q < 4 && r < 4 && s < 4
    requires i == p + 4 * q + 16 * r + 64 * s
    ensures i < 256 && i % 4 == p && i / 4 % 4 == q && i / 16 % 4 == r && i / 64 == s
  {
    assert i / 4 == q + 4 * r + 16 * s;
    assert i / 16 == r + 4 * s;
  }

  lemma UtabBits(i: nat, a: nat, b: nat, c: nat, d: nat, e: nat, f: nat, g: nat, h: nat)
    requires a < 2 && b < 2 && c < 2 && d < 2 && e < 2 && f < 2 && g < 2 && h < 2
    requires i == a + 2 * b + 4 * c + 8 * d + 16 * e + 32 * f + 64 * g + 128 * h
    ensures i < 256 && Utab(i) == a + 4 * b + 16 * c + 64 * d + 256 * e + 1024 * f + 4096 * g + 16384 * h
  {
    Digits(i, a + 2 * b, c + 2 * d, e + 2 * f, g + 2 * h);
    AtBits(a, b);
    AtBits(c, d);
    AtBits(e, f);
    AtBits(g, h);
  }

  lemma UtabInterleaves(i: nat)
    requires i < 256
    ensures Utab(i) == Interleave(i)
  {
    var a, b, c, d, i' := NibbleBits(i);
    var e, f, g, h, z := NibbleBits(i');
    UtabBits(i, a, b, c, d, e, f, g, h);
    InterleaveBits(i, a, b, c, d, i');
    InterleaveBits(i', e, f, g, h, 0);
  }

  /** The two low groups of four bits, and the rest. */
  lemma Nibbles(v: nat) returns (r: nat, s: nat, q: nat)
    ensures r < 16 && s < 16 && r == v % 16 && s == v / 16 % 16 && q == v / 0x100
    ensures v == r + 16 * (v / 16) && v / 16 == s + 16 * q && v % 0x100 == r + 16 * s
  {
    r, s, q := v % 16, v / 16 % 16, v / 0x100;
  }

  lemma InterleaveByte(v: nat)
    ensures Interleave(v) == Interleave(v % 0x100) + 0x10000 * Interleave(v / 0x100)
    ensures Interleave(v % 0x100) <= 0x5555
  {
    var r, s, q := Nibbles(v);
    InterleaveNibble(v, r, v / 16);
    InterleaveNibble(v / 16, s, q);
    InterleaveNibble(v % 0x100, r, s);
  }

  lemma Powers()
    ensures Pow2(4) == 0x10 && Pow2(16) == 0x10000 && Pow2(20) == 0x100000
    ensures Pow2(32) == 0x100000000 && Pow2(48) == 0x1000000000000 && Pow2(64) == 0x10000000000000000
  {
    PowAdd(16, 16);
    PowAdd(32, 16);
    PowAdd(32, 32);
  }

  lemma OrBytes(a: nat, b: nat, c: nat, d: nat)
    requires a < 0x10000 && b < 0x10000 && c < 0x10000 && d < 0x10000
    ensures Or(Or(Or(a, Shl(b, 16)), Shl(c, 32)), Shl(d, 48)) == a + 0x10000 * b + 0x100000000 * c + 0x1000000000000 * d
  {
    hide Or, Shl, Pow2;
    Powers();
    ShlIsTimes(b, 16);
    ShlIsTimes(c, 32);
    ShlIsTimes(d, 48);
    OrDisjoint(16, a, b);
    OrDisjoint(32, a + 0x10000 * b, c);
    OrDisjoint(48, a + 0x10000 * b + 0x100000000 * c, d);
  }

  /** The table-driven spreading of bits is bit interleaving with zeros. */
  lemma SpreadInterleaves(v: nat)
    requires v < 0x100000000
    ensures SpreadBits64(v) == Interleave(v)
  {
    hide Interleave, Utab, And, Or, Shl, Byte;
    var v1, v2, v3 := v / 0x100, v / 0x10000, v / 0x1000000;
    assert v1 / 0x100 == v2 && v2 / 0x100 == v3 && v3 % 0x100 == v3;
    UtabInterleaves(v % 0x100);
    UtabInterleaves(v1 % 0x100);
    UtabInterleaves(v2 % 0x100);
    UtabInterleaves(v3 % 0x100);
    InterleaveByte(v);
    InterleaveByte(v1);
    InterleaveByte(v2);
    InterleaveByte(v3);
    OrBytes(Interleave(v % 0x100), Interleave(v1 % 0x100), Interleave(v2 % 0x100), Interleave(v3 % 0x100));
  }

  // ---- Compression ----

  /** A table index whose even bits are those of `x` and whose odd bits are those of `y`. */
  lemma CtabUnzips(x: nat, y: nat)
    requires x < 16 && y < 16
    ensures Zip(x, y) < 256 && Ctab(Zip(x, y)) == x + 0x100 * y
  {
    var a, b, c, d, q := NibbleBits(x);
    var a', b', c', d', q' := NibbleBits(y);
    InterleaveBits(x, a, b, c, d, 0);
    InterleaveBits(y, a', b', c', d', 0);
    CtabBits(Zip(x, y), a, b, c, d, a', b', c', d');
  }

  lemma CtabBits(i: nat, a: nat, b: nat, c: nat, d: nat, a': nat, b': nat, c': nat, d': nat)
    requires a < 2 && b < 2 && c < 2 && d < 2 && a' < 2 && b' < 2 && c' < 2 && d' < 2
    requires i == a + 2 * a' + 4 * b + 8 * b' + 16 * c + 32 * c' + 64 * d + 128 * d'
    ensures i < 256 && Ctab(i) == a + 2 * b + 4 * c + 8 * d + 0x100 * (a' + 2 * b' + 4 * c' + 8 * d')
  {
    Digits(i, a + 2 * a', b + 2 * b', c + 2 * c', d + 2 * d');
    AtBits8(a, a', 1);
    AtBits8(b, b', 2);
    AtBits8(c, c', 4);
    AtBits8(d, d', 8);
  }

  lemma AtBits8(a: nat, b: nat, m: nat)
    requires a < 2 && b < 2
    ensures At(a + 2 * b, m, 256 * m, 257 * m) == m * (a + 256 * b)
  {
  }

  /** The word `raw` of compress_bits64: the even bits `w`, and beside each the one eight places above it. */
  function Folded(w: nat): nat {
    Zip(w, w / 0x100)
  }

  lemma FoldedByte(w: nat)
    ensures Folded(w) == Zip(w % 16, w / 0x100 % 16) + 0x100 * Folded(w / 16)
    ensures Zip(w % 16, w / 0x100 % 16) < 0x100
  {
    var u := w / 0x100;
    InterleaveNibble(w, w % 16, w / 16);
    InterleaveNibble(u, u % 16, u / 16);
    assert u / 16 == (w / 16) / 0x100;
  }

  /** Four groups of four bits, the even-numbered ones in one word and the odd-numbered ones in the other. */
  lemma OrNibbles(a: nat, b: nat, c: nat, d: nat)
    requires a < 16 && b < 16 && c < 16 && d < 16
    ensures Or(a + 0x100 * c, Shl(b + 0x100 * d, 4)) == a + 0x10 * b + 0x100 * c + 0x1000 * d
  {
    hide Or, Shl, Pow2;
    Powers();
    ShlIsTimes(16 * c, 4);
    OrSplit(4, a, 16 * c, 0, b + 0x100 * d);
    OrZero(a);
    ShlIsTimes(c, 4);
    ShlIsTimes(16 * d, 4);
    OrSplit(4, 0, c, b, 16 * d);
    OrZero(b);
    ShlIsTimes(d, 4);
    OrDisjoint(4, c, d);
    ShlIsTimes(c + 16 * d, 4);
    ShlIsTimes(b + 16 * (c + 16 * d), 4);
  }

  /** The final assembly of compress_bits64 from its four table entries. */
  lemma OrTables(c0: nat, c1: nat, c2: nat, c3: nat, lo: nat, hi: nat)
    requires lo < 0x10000 && Or(c0, Shl(c1, 4)) == lo && Or(c2, Shl(c3, 4)) == hi
    ensures Or(Or(Or(c0, Shl(c1, 4)), Shl(c2, 16)), Shl(c3, 20)) == lo + 0x10000 * hi
  {
    hide Or, Shl, Pow2;
    Powers();
    OrDisjoint(16, lo, c2);
    ShlAdd(c3, 4, 16);
    OrSplit(16, lo, c2, 0, Shl(c3, 4));
    OrZero(lo);
    ShlIsTimes(hi, 16);
  }

  lemma EvenMask32()
    ensures EvenMask(32) == 0x5555555555555555
  {
    assert EvenMask(4) == 0x55;
    assert EvenMask(8) == 0x5555;
    assert EvenMask(12) == 0x555555;
    assert EvenMask(16) == 0x55555555;
    assert EvenMask(20) == 0x5555555555;
    assert EvenMask(24) == 0x555555555555;
    assert EvenMask(28) == 0x55555555555555;
  }

  lemma FoldedWord(v: nat) returns (w: nat)
    requires v < 0x10000000000000000
    ensures w == EvenBits(v) && w < 0x100000000
    ensures var masked := And(v, 0x5555555555555555); Or(masked, masked / 0x8000) == Folded(w)
  {
    hide And, Or, Interleave, EvenBits, EvenMask, Zip, Pow2;
    w := EvenBits(v);
    Powers();
    EvenBitsBound(v, 32);
    EvenMask32();
    AndEvenMask(v, 32);
    InterleaveByte(w);
    assert Interleave(w) / 0x8000 == 2 * Interleave(w / 0x100);
    OrEvenOdd(w, w / 0x100);
  }

  lemma FoldedTable(w: nat)
    ensures Ctab(Byte(Folded(w))) == w % 16 + 0x100 * (w / 0x100 % 16)
    ensures Folded(w) / 0x100 == Folded(w / 16)
  {
    hide Ctab, Folded, Zip, Byte;
    FoldedByte(w);
    SplitByte(Folded(w), Zip(w % 16, w / 0x100 % 16), Folded(w / 16));
    CtabUnzips(w % 16, w / 0x100 % 16);
  }

  lemma SplitByte(v: nat, lo: nat, hi: nat)
    requires v == lo + 0x100 * hi && lo < 0x100
    ensures Byte(v) == lo && v / 0x100 == hi
  {
    DivModUnique(v, 0x100, hi, lo);
  }

  lemma FoldedShift(w: nat)
    ensures Folded(w) / 0x100 == Folded(w / 16)
  {
    FoldedTable(w);
  }

  lemma FoldedTwice(w: nat)
    ensures Folded(w) / 0x10000 == Folded(w / 0x100)
  {
    hide Folded;
    FoldedShift(w);
    FoldedShift(w / 16);
    assert w / 16 / 16 == w / 0x100;
  }

  lemma FoldedShifts(w: nat)
    ensures Folded(w) / 0x100000000 == Folded(w / 0x10000)
    ensures Folded(w) / 0x10000000000 == Folded(w / 0x100000)
  {
    hide Folded;
    FoldedTwice(w);
    FoldedTwice(w / 0x100);
    assert w / 0x100 / 0x100 == w / 0x10000;
    FoldedShift(w / 0x10000);
    assert w / 0x10000 / 16 == w / 0x100000;
  }

  /** The four table entries of a folded word, put together. */
  lemma Assembled(w: nat)
    requires w < 0x100000000
    ensures Or(Or(Or(Ctab(Byte(Folded(w))),
                     Shl(Ctab(Byte(Folded(w / 0x10))), 4)),
                  Shl(Ctab(Byte(Folded(w / 0x10000))), 16)),
               Shl(Ctab(Byte(Folded(w / 0x100000))), 20)) == w
  {
    hide *;
    var w1, w2, w3 := w / 0x10, w / 0x10000, w / 0x100000;
    FoldedTable(w);
    FoldedTable(w1);
    FoldedTable(w2);
    FoldedTable(w3);
    var lo := HalfAssembled(w);
    var hi := HalfAssembled(w2);
    assert w2 / 0x10 == w3;
    OrTables(Ctab(Byte(Folded(w))), Ctab(Byte(Folded(w1))), Ctab(Byte(Folded(w2))), Ctab(Byte(Folded(w3))), lo, hi);
  }

  lemma HalfAssembled(w: nat) returns (h: nat)
    ensures Or(Ctab(Byte(Folded(w))), Shl(Ctab(Byte(Folded(w / 0x10))), 4)) == h == w % 0x10000
  {
    hide *;
    var w1 := w / 0x10;
    FoldedTable(w);
    FoldedTable(w1);
    var a, b, c, d := w % 16, w1 % 16, w / 0x100 % 16, w1 / 0x100 % 16;
    OrNibbles(a, b, c, d);
    Word16(w, a, b, c, d);
    h := w % 0x10000;
  }

  /** The table-driven compression picks the bits at even positions. */
  lemma CompressPicksEvenBits(v: nat)
    requires v < 0x10000000000000000
    ensures CompressBits64(v) == EvenBits(v)
  {
    hide And, Or, Shl, EvenBits, Ctab, Byte, Folded;
    var w := FoldedWord(v);
    FoldedTable(w);
    FoldedShifts(w);
    Assembled(w);
  }

  lemma Word16(w: nat, a: nat, b: nat, c: nat, d: nat)
    requires a == w % 16 && b == w / 0x10 % 16 && c == w / 0x100 % 16 && d == w / 0x10 / 0x100 % 16
    ensures a + 0x10 * b + 0x100 * c + 0x1000 * d == w % 0x10000
  {
    var w1 := w / 0x10;
    var w2 := w1 / 0x10;
    var w3 := w2 / 0x10;
    assert w2 == w / 0x100 && w3 == w1 / 0x100 && w3 / 0x10 == w / 0x10000;
  }

  // ---- Both directions of the NEST numbering ----

  ghost predicate IsNside(nside: nat, order: nat) {
    order <= 29 && nside == Pow2(order)
  }

  predicate InFace(nside: nat, c: Cell) {
    0 <= c.face < 12 && 0 <= c.x < nside && 0 <= c.y < nside
  }

  lemma Pow29()
    ensures Pow2(29) == 0x20000000 && Pow2(58) == 0x400000000000000
  {
    Powers();
    PowAdd(20, 9);
    PowAdd(29, 29);
  }

  lemma NpfaceIsPower(nside: nat, order: nat)
    requires IsNside(nside, order)
    ensures nside * nside == Pow2(2 * order) && Pow2(2 * order) <= 0x400000000000000
    ensures nside <= 0x20000000
  {
    hide Pow2;
    PowAdd(order, order);
    PowMonotone(order, 29);
    PowMonotone(2 * order, 58);
    Pow29();
  }

  lemma {:induction false} PowMonotone(j: nat, k: nat)
    requires j <= k
    ensures Pow2(j) <= Pow2(k)
  {
    if j < k {
      PowMonotone(j, k - 1);
    }
  }

  /** The number inside a face interleaves the coordinates and stays below nside^2. */
  lemma NestOfCell(nside: nat, order: nat, c: Cell)
    requires IsNside(nside, order) && InFace(nside, c)
    ensures Xyf2Nest64(nside, c.x, c.y, c.face) == c.face * (nside * nside) + Zip(c.x, c.y)
    ensures Zip(c.x, c.y) < nside * nside
  {
    hide SpreadBits64, Interleave, Pow2;
    NpfaceIsPower(nside, order);
    SpreadInterleaves(c.x);
    SpreadInterleaves(c.y);
    InterleaveBound(c.x, order);
    InterleaveBound(c.y, order);
    assert c.face * nside * nside == c.face * (nside * nside);
  }

  lemma CellOfNest(nside: nat, order: nat, pix: nat)
    requires IsNside(nside, order)
    ensures var p := pix % (nside * nside);
            Nest2Xyf64(nside, pix) == Cell(pix / (nside * nside), EvenBits(p), EvenBits(p / 2))
  {
    hide CompressBits64, EvenBits, And, Pow2;
    NpfaceIsPower(nside, order);
    AndMask(pix, 2 * order);
    var p := pix % (nside * nside);
    CompressPicksEvenBits(p);
    CompressPicksEvenBits(p / 2);
  }

  /** nest2xyf64 undoes xyf2nest64. */
  lemma NestRoundTrip(nside: nat, order: nat, c: Cell)
    requires IsNside(nside, order) && InFace(nside, c)
    ensures var pix := Xyf2Nest64(nside, c.x, c.y, c.face);
            0 <= pix < 12 * nside * nside && Nest2Xyf64(nside, pix) == c
  {
    hide Xyf2Nest64, Nest2Xyf64, Zip, EvenBits, Pow2;
    var np := nside * nside;
    var pix := Xyf2Nest64(nside, c.x, c.y, c.face);
    NestOfCell(nside, order, c);
    FaceBounds(np, c.face, Zip(c.x, c.y));
    DivModUnique(pix, np, c.face, Zip(c.x, c.y));
    CellOfNest(nside, order, pix);
    EvenBitsOfZip(c.x, c.y);
    OddBitsOfZip(c.x, c.y);
  }

  lemma FaceBounds(np: nat, face: nat, r: nat)
    requires face < 12 && r < np
    ensures 0 <= face * np + r < 12 * np
    ensures face * np == np * face
  {
  }

  /** xyf2nest64 undoes nest2xyf64, and every NEST number names a pixel of one of the twelve faces. */
  lemma CellRoundTrip(nside: nat, order: nat, pix: nat)
    requires IsNside(nside, order) && pix < 12 * nside * nside
    ensures var c := Nest2Xyf64(nside, pix);
            InFace(nside, c) && Xyf2Nest64(nside, c.x, c.y, c.face) == pix
  {
    hide Xyf2Nest64, Nest2Xyf64, Zip, EvenBits, Pow2;
    var np := nside * nside;
    CellOfNest(nside, order, pix);
    NpfaceIsPower(nside, order);
    var p := pix % np;
    EvenBitsBound(p, order);
    EvenBitsBound(p / 2, order);
    FaceOfPix(np, pix);
    ZipOfEvenBits(p);
    NestOfCell(nside, order, Nest2Xyf64(nside, pix));
  }

  lemma FaceOfPix(np: nat, pix: nat)
    requires np > 0 && pix < 12 * np
    ensures 0 <= pix / np < 12 && pix == (pix / np) * np + pix % np
  {
    var q := pix / np;
    assert pix == np * q + pix % np;
    if q >= 12 {
      MulAtLeast(np, q - 11);
      assert false;
    }
  }
}
