// Bitwise operations of C on non-negative integers, and bit interleaving.

module Bits {

  function Pow2(k: nat): (p: nat)
    ensures p >= 1
  {
    if k == 0 then 1 else 2 * Pow2(k - 1)
  }

  lemma {:induction false} PowAdd(j: nat, k: nat)
    ensures Pow2(j + k) == Pow2(j) * Pow2(k)
  {
    if j > 0 {
      PowAdd(j - 1, k);
      PowDouble(Pow2(j - 1), Pow2(k));
    }
  }

  /** The bit-by-bit conjunction `a & b`. */
  function And(a: nat, b: nat): nat {
    if a == 0 || b == 0 then 0
    else (if a % 2 == 1 && b % 2 == 1 then 1 else 0) + 2 * And(a / 2, b / 2)
  }

  /** The bit-by-bit disjunction `a | b`. */
  function Or(a: nat, b: nat): nat {
    if a == 0 && b == 0 then 0
    else (if a % 2 == 1 || b % 2 == 1 then 1 else 0) + 2 * Or(a / 2, b / 2)
  }

  /** `v` with a zero bit inserted above each of its bits. */
  function Interleave(v: nat): nat {
    if v == 0 then 0 else v % 2 + 4 * Interleave(v / 2)
  }

  /** The bits of `v` at even positions. */
  function EvenBits(v: nat): nat {
    if v == 0 then 0 else v % 2 + 2 * EvenBits(v / 4)
  }

  /** The number 0b0101...01 with `k` ones. */
  function EvenMask(k: nat): nat {
    if k == 0 then 0 else 1 + 4 * EvenMask(k - 1)
  }

  // ---- Masks, shifts and disjoint unions ----

  /** `v << k`. */
  function Shl(v: nat, k: nat): nat {
    if k == 0 then v else 2 * Shl(v, k - 1)
  }

  /** The low `k` bits of `v`. */
  function Low(v: nat, k: nat): nat {
    if k == 0 then 0 else v % 2 + 2 * Low(v / 2, k - 1)
  }

  lemma {:induction false} ShlIsTimes(v: nat, k: nat)
    ensures Shl(v, k) == Pow2(k) * v
  {
    if k > 0 {
      ShlIsTimes(v, k - 1);
      PowDouble(Pow2(k - 1), v);
    }
  }

  lemma {:induction false} LowIsMod(v: nat, k: nat)
    ensures Low(v, k) == v % Pow2(k)
  {
    if k > 0 {
      LowIsMod(v / 2, k - 1);
      ModDouble(v, Pow2(k - 1));
    }
  }

  lemma {:induction false} AndLow(v: nat, k: nat)
    ensures And(v, Pow2(k) - 1) == Low(v, k)
  {
    if k > 0 {
      AndLow(v / 2, k - 1);
      AndStep(v, v % 2, v / 2, Pow2(k) - 1, 1, Pow2(k - 1) - 1);
    }
  }

  /** Masking with 2^k - 1 is the remainder modulo 2^k. */
  lemma AndMask(v: nat, k: nat)
    ensures And(v, Pow2(k) - 1) == v % Pow2(k)
  {
    AndLow(v, k);
    LowIsMod(v, k);
  }

  lemma ModDouble(v: nat, p: nat)
    requires p >= 1
    ensures v % (2 * p) == v % 2 + 2 * ((v / 2) % p)
  {
    var q, r := (v / 2) / p, (v / 2) % p;
    assert v == (2 * p) * q + (v % 2 + 2 * r) by {
      assert v / 2 == p * q + r;
      assert v == 2 * (v / 2) + v % 2;
      assert 2 * (p * q) == (2 * p) * q;
    }
    DivModUnique(v, 2 * p, q, v % 2 + 2 * r);
  }

  lemma {:induction false} MulAtLeast(d: int, k: int)
    requires d > 0 && k > 0
    ensures d * k >= d
  {
    if k > 1 {
      MulAtLeast(d, k - 1);
      assert d * k == d * (k - 1) + d;
    }
  }

  lemma DivModUnique(v: int, d: int, q: int, r: int)
    requires d > 0 && 0 <= r < d && v == d * q + r
    ensures v / d == q && v % d == r
  {
    var q', r' := v / d, v % d;
    assert v == d * q' + r' && 0 <= r' < d;
    var e := q - q';
    assert d * e == r' - r;
    if e > 0 {
      MulAtLeast(d, e);
    } else if e < 0 {
      MulAtLeast(d, -e);
    }
  }

  // ---- One bit at a time ----

  lemma OrStep(v: nat, a: nat, x: nat, w: nat, b: nat, u: nat)
    requires a < 2 && b < 2 && v == a + 2 * x && w == b + 2 * u
    ensures Or(v, w) == (if a == 1 || b == 1 then 1 else 0) + 2 * Or(x, u)
  {
    assert v % 2 == a && v / 2 == x;
    assert w % 2 == b && w / 2 == u;
  }

  lemma AndStep(v: nat, a: nat, x: nat, w: nat, b: nat, u: nat)
    requires a < 2 && b < 2 && v == a + 2 * x && w == b + 2 * u
    ensures And(v, w) == (if a == 1 && b == 1 then 1 else 0) + 2 * And(x, u)
  {
    assert v % 2 == a && v / 2 == x;
    assert w % 2 == b && w / 2 == u;
    AndZero(x);
    AndZero(u);
  }

  lemma AndZero(x: nat)
    ensures And(x, 0) == 0 && And(0, x) == 0
  {
  }

  lemma InterleaveStep(v: nat, a: nat, x: nat)
    requires a < 2 && v == a + 2 * x
    ensures Interleave(v) == a + 4 * Interleave(x)
  {
    DivModUnique(v, 2, x, a);
  }

  lemma EvenBitsStep(v: nat, a: nat, b: nat, x: nat)
    requires a < 2 && b < 2 && v == a + 2 * b + 4 * x
    ensures EvenBits(v) == a + 2 * EvenBits(x)
  {
    DivModUnique(v, 2, 2 * x + b, a);
    DivModUnique(v, 4, x, a + 2 * b);
  }

  lemma {:induction false} OrZero(a: nat)
    ensures Or(a, 0) == a && Or(0, a) == a
  {
    if a > 0 {
      OrZero(a / 2);
    }
  }

  /** `|` works separately on the low `k` bits and on the rest. */
  lemma {:induction false} OrSplit(k: nat, x: nat, y: nat, u: nat, v: nat)
    requires x < Pow2(k) && u < Pow2(k)
    ensures Or(x, u) < Pow2(k)
    ensures Or(x + Shl(y, k), u + Shl(v, k)) == Or(x, u) + Shl(Or(y, v), k)
  {
    if k > 0 {
      OrSplit(k - 1, x / 2, y, u / 2, v);
      OrSplitStep(Pow2(k - 1), x, Shl(y, k - 1), u, Shl(v, k - 1), Shl(Or(y, v), k - 1));
    }
  }

  lemma OrSplitStep(p: nat, x: nat, y: nat, u: nat, v: nat, o: nat)
    requires Or(x / 2, u / 2) < p
    requires Or(x / 2 + y, u / 2 + v) == Or(x / 2, u / 2) + o
    ensures Or(x, u) < 2 * p
    ensures Or(x + 2 * y, u + 2 * v) == Or(x, u) + 2 * o
  {
    var a, x', b, u' := x % 2, x / 2, u % 2, u / 2;
    OrStep(x, a, x', u, b, u');
    OrStep(x + 2 * y, a, x' + y, u + 2 * v, b, u' + v);
  }

  lemma PowDouble(p: nat, y: nat)
    ensures (2 * p) * y == 2 * (p * y)
  {
  }

  /** `|` of a `k`-bit number and a number shifted left by `k` is their sum. */
  lemma OrDisjoint(k: nat, x: nat, v: nat)
    requires x < Pow2(k)
    ensures Or(x, Shl(v, k)) == x + Shl(v, k)
  {
    OrSplit(k, x, 0, 0, v);
    OrZero(x);
    OrZero(v);
    ShlZero(k);
  }

  lemma {:induction false} ShlAdd(v: nat, j: nat, k: nat)
    ensures Shl(Shl(v, j), k) == Shl(v, j + k)
  {
    if k > 0 {
      ShlAdd(v, j, k - 1);
    }
  }

  lemma ShlZero(k: nat)
    ensures Shl(0, k) == 0
  {
  }

  // ---- Interleaving ----

  /** The bits of `x` at the even positions, those of `y` at the odd ones. */
  function Zip(x: nat, y: nat): nat {
    Interleave(x) + 2 * Interleave(y)
  }

  lemma ZipStep(x: nat, y: nat)
    ensures Zip(x, y) == x % 2 + 2 * Zip(y, x / 2)
  {
  }

  lemma {:induction false} EvenBitsOfZip(x: nat, y: nat)
    ensures EvenBits(Zip(x, y)) == x
    decreases x + y
  {
    if x + y > 0 {
      EvenBitsOfZip(x / 2, y / 2);
      ZipStep(x, y);
      ZipStep(y, x / 2);
      EvenBitsStep(Zip(x, y), x % 2, y % 2, Zip(x / 2, y / 2));
    }
  }

  lemma OddBitsOfZip(x: nat, y: nat)
    ensures EvenBits(Zip(x, y) / 2) == y
  {
    ZipStep(x, y);
    EvenBitsOfZip(y, x / 2);
  }

  lemma {:induction false} ZipOfEvenBits(p: nat)
    ensures Zip(EvenBits(p), EvenBits(p / 2)) == p
  {
    if p > 0 {
      hide Zip, EvenBits;
      var h := p / 2;
      ZipOfEvenBits(h);
      EvenBitsStep(p, p % 2, h % 2, h / 2);
      var e := EvenBits(p);
      DivModUnique(e, 2, EvenBits(h / 2), p % 2);
      ZipStep(e, EvenBits(h));
    }
  }

  lemma {:induction false} InterleaveBound(v: nat, k: nat)
    requires v < Pow2(k)
    ensures 3 * Interleave(v) < Pow2(2 * k)
  {
    if k > 0 {
      InterleaveBound(v / 2, k - 1);
      assert Pow2(2 * k) == 4 * Pow2(2 * (k - 1));
    }
  }

  lemma {:induction false} EvenBitsBound(p: nat, k: nat)
    requires p < Pow2(2 * k)
    ensures EvenBits(p) < Pow2(k)
  {
    if k > 0 {
      assert Pow2(2 * k) == 4 * Pow2(2 * (k - 1));
      EvenBitsBound(p / 4, k - 1);
    }
  }

  lemma NibbleBits(v: nat) returns (a: nat, b: nat, c: nat, d: nat, q: nat)
    ensures a < 2 && b < 2 && c < 2 && d < 2 && q == v / 16
    ensures v == a + 2 * b + 4 * c + 8 * d + 16 * q
    ensures v % 16 == a + 2 * b + 4 * c + 8 * d
  {
    var w1 := v / 2;
    var w2 := w1 / 2;
    var w3 := w2 / 2;
    a, b, c, d, q := v % 2, w1 % 2, w2 % 2, w3 % 2, w3 / 2;
  }

  /** Interleaving works separately on groups of four bits. */
  lemma InterleaveNibble(v: nat, r: nat, q: nat)
    requires r < 16 && v == r + 16 * q
    ensures Interleave(v) == Interleave(r) + 256 * Interleave(q)
    ensures Interleave(r) <= 85
  {
    var a, b, c, d, z := NibbleBits(r);
    InterleaveBits(v, a, b, c, d, q);
    InterleaveBits(r, a, b, c, d, 0);
  }

  lemma InterleaveTwo(v: nat, a: nat, b: nat, q: nat)
    requires a < 2 && b < 2 && v == a + 2 * b + 4 * q
    ensures Interleave(v) == a + 4 * b + 16 * Interleave(q)
  {
    var w := b + 2 * q;
    assert v == a + 2 * w;
    InterleaveStep(w, b, q);
    InterleaveStep(v, a, w);
  }

  lemma InterleaveBits(v: nat, a: nat, b: nat, c: nat, d: nat, q: nat)
    requires a < 2 && b < 2 && c < 2 && d < 2 && v == a + 2 * b + 4 * c + 8 * d + 16 * q
    ensures Interleave(v) == a + 4 * b + 16 * c + 64 * d + 256 * Interleave(q)
  {
    var w := c + 2 * d + 4 * q;
    InterleaveTwo(w, c, d, q);
    InterleaveTwo(v, a, b, w);
  }

  /** `v & 0x55...5` keeps the bits at even positions. */
  lemma {:induction false} AndEvenMask(v: nat, k: nat)
    requires v < Pow2(2 * k)
    ensures And(v, EvenMask(k)) == Interleave(EvenBits(v))
  {
    if v > 0 {
      assert Pow2(2 * k) == 4 * Pow2(2 * (k - 1));
      var a, b, h := v % 2, (v / 2) % 2, v / 4;
      assert v == a + 2 * b + 4 * h;
      AndEvenMask(h, k - 1);
      AndTwo(v, a, b, h, EvenMask(k), EvenMask(k - 1));
      EvenBitsStep(v, a, b, h);
      InterleaveStep(EvenBits(v), a, EvenBits(h));
    }
  }

  lemma AndTwo(v: nat, a: nat, b: nat, h: nat, mask: nat, mask': nat)
    requires a < 2 && b < 2 && v == a + 2 * b + 4 * h && mask == 1 + 4 * mask'
    ensures And(v, mask) == a + 4 * And(h, mask')
  {
    AndStep(b + 2 * h, b, h, 2 * mask', 0, mask');
    AndStep(v, a, b + 2 * h, mask, 1, 2 * mask');
  }

  lemma {:induction false} OrCommutes(a: nat, b: nat)
    ensures Or(a, b) == Or(b, a)
  {
    if a > 0 || b > 0 {
      OrCommutes(a / 2, b / 2);
    }
  }

  /** `|` of bits at even positions and bits at odd positions is their sum. */
  lemma {:induction false} OrEvenOdd(a: nat, b: nat)
    ensures Or(Interleave(a), 2 * Interleave(b)) == Zip(a, b)
    decreases a + b
  {
    if a == 0 {
      OrZero(2 * Interleave(b));
    } else {
      OrEvenOdd(b, a / 2);
      var x, y := Interleave(a / 2), Interleave(b);
      InterleaveStep(a, a % 2, a / 2);
      OrStep(Interleave(a), a % 2, 2 * x, 2 * y, 0, y);
      OrCommutes(2 * x, y);
    }
  }

  /** The integer square root; what `(int) sqrt(x)` yields where doubles are exact. */
  function FloorSqrt(v: nat): (r: nat)
    ensures r * r <= v < (r + 1) * (r + 1)
  {
    if v == 0 then 0
    else
      var r := FloorSqrt(v - 1);
      if (r + 1) * (r + 1) <= v then r + 1 else r
  }

  lemma SquaresOrdered(a: nat, b: nat)
    requires a * a < (b + 1) * (b + 1)
    ensures a <= b
  {
  }

  lemma FloorSqrtMonotone(v: nat, w: nat)
    requires v <= w
    ensures FloorSqrt(v) <= FloorSqrt(w)
  {
    hide FloorSqrt;
    SquaresOrdered(FloorSqrt(v), FloorSqrt(w));
  }
}
