// Detections ("samples"), their order in time and their mutual distances
// (scamp/src/samples.h, cmp_samples of chealpixstore.c, dist of crossid.c).

module Samples {

  /** A catalogue field, reduced to what decides the order of its samples. */
  datatype Field = Field(fieldindex: int, isrefcat: bool)

  /** Unit vector of a sample on the sphere; floating-point rounding is not modelled. */
  datatype Vector = Vector(x: real, y: real, z: real)

  /** A detection. Only the two links are ever rewritten by cross-identification.
      `pixnum` stands for the HEALPix number that ang2pix_nest64 yields for the sample,
      both at insertion and when the store looks the sample up again. */
  class Sample {
    const epoch: real
    const field: Field
    const vector: Vector
    const pixnum: int
    var nextsamp: Sample?
    var prevsamp: Sample?

    constructor (epoch: real, field: Field, vector: Vector, pixnum: int)
      ensures this.epoch == epoch && this.field == field && this.vector == vector && this.pixnum == pixnum
      ensures nextsamp == null && prevsamp == null
    {
      this.epoch, this.field, this.vector, this.pixnum := epoch, field, vector, pixnum;
      nextsamp, prevsamp := null, null;
    }
  }

  /** Signed field index: reference fields come before all others, in reverse. */
  function FieldKey(f: Field): int {
    if f.isrefcat then 0 - (f.fieldindex + 1) else f.fieldindex
  }

  /** -1, 0 or 1: `a` is older than, contemporary with, or newer than `b`. */
  function CmpSamples(a: Sample, b: Sample): (c: int)
    ensures c == -1 || c == 0 || c == 1
  {
    if a.epoch < b.epoch then -1
    else if a.epoch > b.epoch then 1
    else
      var aindex, bindex := FieldKey(a.field), FieldKey(b.field);
      if aindex > bindex then 1 else if aindex < bindex then -1 else 0
  }

  predicate Older(a: Sample, b: Sample) {
    CmpSamples(a, b) < 0
  }

  function Square(x: real): real {
    x * x
  }

  /** Squared Euclidean distance. */
  function Dist(a: Sample, b: Sample): real {
    Square(a.vector.x - b.vector.x) + Square(a.vector.y - b.vector.y) + Square(a.vector.z - b.vector.z)
  }

  lemma SquareNeg(x: real)
    ensures Square(-x) == Square(x)
  {
  }

  lemma DistSymmetric(a: Sample, b: Sample)
    ensures Dist(a, b) == Dist(b, a)
  {
    SquareNeg(a.vector.x - b.vector.x);
    SquareNeg(a.vector.y - b.vector.y);
    SquareNeg(a.vector.z - b.vector.z);
    assert b.vector.x - a.vector.x == -(a.vector.x - b.vector.x);
    assert b.vector.y - a.vector.y == -(a.vector.y - b.vector.y);
    assert b.vector.z - a.vector.z == -(a.vector.z - b.vector.z);
  }

  lemma TimesAssociates(a: real, b: real, c: real)
    ensures (a * b) * c == a * (b * c)
  {
  }

  lemma SquarePositive(x: real)
    ensures Square(x) >= 0.0 && (Square(x) == 0.0 <==> x == 0.0)
  {
    if x != 0.0 {
      var r := 1.0 / x;
      assert x * r == 1.0;
      TimesAssociates(x, x, r);
    }
  }

  /** Exactly equal vectors are at distance zero, and no coordinate differs by more than the distance allows. */
  lemma DistZero(a: Sample, b: Sample)
    ensures Dist(a, b) >= 0.0 && (Dist(a, b) == 0.0 <==> a.vector == b.vector)
  {
    SquarePositive(a.vector.x - b.vector.x);
    SquarePositive(a.vector.y - b.vector.y);
    SquarePositive(a.vector.z - b.vector.z);
    hide Square;
  }

  /** Samples within a squared distance are within it on every axis. */
  lemma DistBoundsAxes(a: Sample, b: Sample, maxdist: real)
    requires Dist(a, b) <= maxdist
    ensures var u, v := a.vector, b.vector;
      && (u.x - v.x) * (u.x - v.x) <= maxdist
      && (u.y - v.y) * (u.y - v.y) <= maxdist
      && (u.z - v.z) * (u.z - v.z) <= maxdist
  {
    SquarePositive(a.vector.x - b.vector.x);
    SquarePositive(a.vector.y - b.vector.y);
    SquarePositive(a.vector.z - b.vector.z);
  }

  lemma SquareOfDifference(x: real, y: real)
    ensures Square(x - y) == x * x + y * y - 2.0 * (x * y)
  {
    assert (x - y) * (x - y) == x * (x - y) - y * (x - y);
    assert x * (x - y) == x * x - x * y && y * (x - y) == y * x - y * y;
  }

  /** The law of cosines; for unit vectors the squared distance is 2 less twice their product, so it orders samples as
      the angle between them does. */
  lemma DistByProduct(a: Sample, b: Sample)
    ensures var u, v := a.vector, b.vector;
      && Dist(a, b) == (u.x * u.x + u.y * u.y + u.z * u.z) + (v.x * v.x + v.y * v.y + v.z * v.z)
        - 2.0 * (u.x * v.x + u.y * v.y + u.z * v.z)
      && (u.x * u.x + u.y * u.y + u.z * u.z == 1.0 == v.x * v.x + v.y * v.y + v.z * v.z ==>
          Dist(a, b) == 2.0 - 2.0 * (u.x * v.x + u.y * v.y + u.z * v.z))
  {
    SquareOfDifference(a.vector.x, b.vector.x);
    SquareOfDifference(a.vector.y, b.vector.y);
    SquareOfDifference(a.vector.z, b.vector.z);
    hide Square;
  }

  /** Older means earlier in epoch; at equal epochs reference fields come before all others, in reverse order, and
      others in order. */
  lemma OlderExactly(a: Sample, b: Sample)
    requires a.field.fieldindex >= 0 && b.field.fieldindex >= 0
    ensures a.epoch != b.epoch ==> (Older(a, b) <==> a.epoch < b.epoch)
    ensures a.epoch == b.epoch && a.field.isrefcat && !b.field.isrefcat ==> Older(a, b)
    ensures a.epoch == b.epoch && !a.field.isrefcat && b.field.isrefcat ==> Older(b, a)
    ensures a.epoch == b.epoch && !a.field.isrefcat && !b.field.isrefcat ==>
      (Older(a, b) <==> a.field.fieldindex < b.field.fieldindex)
    ensures a.epoch == b.epoch && a.field.isrefcat && b.field.isrefcat ==>
      (Older(a, b) <==> a.field.fieldindex > b.field.fieldindex)
    ensures CmpSamples(a, b) == 0 <==> a.epoch == b.epoch && a.field == b.field
    ensures CmpSamples(a, b) > 0 <==> Older(b, a)
  {
  }

  lemma CmpAntisymmetric(a: Sample, b: Sample)
    ensures CmpSamples(a, b) == -CmpSamples(b, a)
  {
  }

  lemma CmpTransitive(a: Sample, b: Sample, c: Sample)
    requires CmpSamples(a, b) <= 0 && CmpSamples(b, c) <= 0
    ensures CmpSamples(a, c) <= 0
    ensures CmpSamples(a, b) < 0 || CmpSamples(b, c) < 0 ==> CmpSamples(a, c) < 0
  {
  }
}
