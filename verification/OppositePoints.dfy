/**
 The co-Z point steps of src/lib/uECC.c on opposite points, where their comments do not hold:
 both points have the same x, the common Z becomes 0, and whatever the last two bits of the
 scalar are, EccPoint_mult ends with the coordinates (0, 0).
 */
module OppositePoints {
  import opened Words

  // ----- arithmetic modulo the prime -----

  function Sum(m: nat, a: int, b: int): int
    requires m > 0
  {
    (a + b) % m
  }

  function Diff(m: nat, a: int, b: int): int
    requires m > 0
  {
    (a - b) % m
  }

  function Mul(m: nat, a: int, b: int): int
    requires m > 0
  {
    (a * b) % m
  }

  /** The residue a word array holds for an integer. */
  function Of(m: nat, e: int): int
    requires m > 0
  {
    e % m
  }

  // ----- the steps -----

  datatype Point = Point(x: int, y: int)

  /** XYcZ_add: P and P + Q, with a new common Z. */
  function CoZAdd(m: nat, p: Point, q: Point): (Point, Point)
    requires m > 0
  {
    var d := Diff(m, q.x, p.x);
    var a := Mul(m, d, d);
    var b := Mul(m, p.x, a);
    var c := Mul(m, q.x, a);
    var dy := Diff(m, q.y, p.y);
    var x3 := Diff(m, Diff(m, Mul(m, dy, dy), b), c);
    var e := Mul(m, p.y, Diff(m, c, b));
    var y3 := Diff(m, Mul(m, dy, Diff(m, b, x3)), e);
    (Point(b, e), Point(x3, y3))
  }

  /** XYcZ_addC: P - Q and P + Q, with a new common Z. */
  function CoZAddC(m: nat, p: Point, q: Point): (Point, Point)
    requires m > 0
  {
    var d := Diff(m, q.x, p.x);
    var a := Mul(m, d, d);
    var b := Mul(m, p.x, a);
    var c := Mul(m, q.x, a);
    var sy := Sum(m, q.y, p.y);
    var dy := Diff(m, q.y, p.y);
    var e := Mul(m, p.y, Diff(m, c, b));
    var bc := Sum(m, b, c);
    var x3 := Diff(m, Mul(m, dy, dy), bc);
    var y3 := Diff(m, Mul(m, dy, Diff(m, b, x3)), e);
    var x4 := Diff(m, Mul(m, sy, sy), bc);
    var y4 := Diff(m, Mul(m, Diff(m, x4, b), sy), e);
    (Point(x4, y4), Point(x3, y3))
  }

  /** One rung of the loop, on R0 and R1. */
  function Rung(m: nat, r: (Point, Point), bit: bool): (Point, Point)
    requires m > 0
  {
    var c := if bit then CoZAddC(m, r.1, r.0) else CoZAddC(m, r.0, r.1);
    var d := CoZAdd(m, c.1, c.0);
    if bit then (d.0, d.1) else (d.1, d.0)
  }

  /** The last rung, with the projection to affine coordinates between its two steps. */
  function LastRung(m: nat, inverse: int -> int, point: Point, r: (Point, Point), bit: bool): Point
    requires m > 0
  {
    var c := if bit then CoZAddC(m, r.1, r.0) else CoZAddC(m, r.0, r.1);
    var r0, r1 := if bit then c.1 else c.0, if bit then c.0 else c.1;
    var z1 := Mul(m, Mul(m, Diff(m, r1.x, r0.x), c.0.y), point.x);
    var z := Mul(m, Mul(m, inverse(z1), point.y), c.0.x);
    var d := CoZAdd(m, c.1, c.0);
    var result := if bit then d.0 else d.1;
    var z2 := Mul(m, z, z);
    Point(Mul(m, result.x, z2), Mul(m, result.y, Mul(m, z2, z)))
  }

  // ----- residues -----

  lemma Shift(m: nat, x: int, y: int, q: int)
    requires m > 0 && x == y + q * m
    ensures x % m == y % m
  {
    var k, r := y / m, y % m;
    assert y == k * m + r;
    Distribute(m, k, q);
    DivModUnique(x, m, k + q, r);
  }

  lemma SumOf(m: nat, a: int, b: int)
    requires m > 0
    ensures Sum(m, Of(m, a), Of(m, b)) == Of(m, a + b)
  {
    var qa, qb := a / m, b / m;
    Distribute(m, qa, qb);
    Shift(m, a + b, a % m + b % m, qa + qb);
  }

  lemma DiffOf(m: nat, a: int, b: int)
    requires m > 0
    ensures Diff(m, Of(m, a), Of(m, b)) == Of(m, a - b)
  {
    var qa, qb := a / m, b / m;
    Distribute(m, qa, -qb);
    Shift(m, a - b, a % m - b % m, qa - qb);
  }

  lemma MulOf(m: nat, a: int, b: int)
    requires m > 0
    ensures Mul(m, Of(m, a), Of(m, b)) == Of(m, a * b)
  {
    var qa, ra, qb, rb := a / m, a % m, b / m, b % m;
    assert a == qa * m + ra && b == qb * m + rb;
    MulOfParts(m, a, b, qa, ra, qb, rb);
  }

  lemma MulOfParts(m: nat, a: int, b: int, qa: int, ra: int, qb: int, rb: int)
    requires m > 0 && a == qa * m + ra && b == qb * m + rb
    ensures (ra * rb) % m == (a * b) % m
  {
    ProductOfSums(qa, ra, qb, rb, m);
    Shift(m, a * b, ra * rb, qa * b + ra * qb);
  }

  lemma ProductOfSums(qa: int, ra: int, qb: int, rb: int, m: int)
    ensures var b := qb * m + rb; (qa * m + ra) * b == ra * rb + (qa * b + ra * qb) * m
  {
    var b := qb * m + rb;
    Distribute(b, qa * m, ra);
    Distribute(ra, qb * m, rb);
    Distribute(m, qa * b, ra * qb);
    Associate(qa, m, b);
    Associate(qa, b, m);
    Associate(ra, qb, m);
  }

  // ----- points of the collapsed ladder -----

  function Origin(m: nat): Point
    requires m > 0
  {
    Point(Of(m, 0), Of(m, 0))
  }

  /** The points (t^2, t^3): what is left of a point when Z is 0. */
  function Cusp(m: nat, t: int): Point
    requires m > 0
  {
    Point(Of(m, t * t), Of(m, t * t * t))
  }

  lemma SixthPower(t: int)
    ensures var u, c := t * t, t * t * t; c * c == u * (u * u) && (-c) * (-c) == c * c && (-c) * c == -(c * c)
  {
    var u := t * t;
    Associate(u, t, u * t);
    Associate(t, u, t);
    Associate(u, t, t);
    assert t * (u * t) == u * u;
  }

  lemma Signs(c: int, s: int)
    ensures (-c) * s == -(c * s) && c * (-s) == -(c * s) && (-s) * c == -(c * s) && (-s) * (-s) == s * s
  {
  }

  /** Opposite points: the difference vanishes and the sum is a cusp. */
  lemma OppositesCollapse(m: nat, x: int, y: int)
    requires m > 0
    ensures CoZAddC(m, Point(Of(m, x), Of(m, y)), Point(Of(m, x), Of(m, -y))) == (Origin(m), Cusp(m, y + y))
  {
    hide Sum, Diff, Mul, Of;
    var d := -y - y;
    DiffOf(m, x, x);
    MulOf(m, 0, 0);
    MulOf(m, x, 0);
    SumOf(m, -y, y);
    DiffOf(m, -y, y);
    DiffOf(m, 0, 0);
    MulOf(m, y, 0);
    SumOf(m, 0, 0);
    MulOf(m, d, d);
    DiffOf(m, d * d, 0);
    DiffOf(m, 0, d * d);
    MulOf(m, d, -(d * d));
    DiffOf(m, d * (-(d * d)), 0);
    var t := y + y;
    assert d == -t;
    Signs(t, t);
    Signs(t, t * t);
    Associate(t, t, t);
  }

  lemma CuspAndOrigin(m: nat, t: int)
    requires m > 0
    ensures CoZAdd(m, Cusp(m, t), Origin(m)) == (Cusp(m, -(t * t * t)), Origin(m))
    ensures CoZAddC(m, Cusp(m, t), Origin(m)) == (Origin(m), Origin(m))
  {
    hide Sum, Diff, Mul, Of;
    var u, c := t * t, t * t * t;
    var s := u * (u * u);
    SixthPower(t);
    Signs(u, u);
    Signs(c, s);
    DiffOf(m, 0, u);
    MulOf(m, -u, -u);
    MulOf(m, u, u * u);
    MulOf(m, 0, u * u);
    DiffOf(m, 0, c);
    SumOf(m, 0, c);
    MulOf(m, c, c);
    MulOf(m, -c, -c);
    DiffOf(m, s, s);
    DiffOf(m, 0, 0);
    DiffOf(m, 0, s);
    MulOf(m, c, -s);
    DiffOf(m, s, 0);
    MulOf(m, -c, s);
    DiffOf(m, -(c * s), -(c * s));
    SumOf(m, s, 0);
    MulOf(m, -s, c);
    CubeOfCube(c, s);
  }

  lemma CubeOfCube(c: int, s: int)
    requires c * c == s
    ensures (-c) * (-c) == s && (-c) * (-c) * (-c) == -(c * s)
  {
    Signs(c, c);
    Signs(s, c);
    Signs(c, s);
  }

  lemma OriginAndCusp(m: nat, t: int)
    requires m > 0
    ensures CoZAddC(m, Origin(m), Cusp(m, t)) == (Origin(m), Origin(m))
    ensures CoZAdd(m, Origin(m), Origin(m)) == (Origin(m), Origin(m))
  {
    hide Sum, Diff, Mul, Of;
    var u, c := t * t, t * t * t;
    var s := u * (u * u);
    SixthPower(t);
    DiffOf(m, u, 0);
    MulOf(m, u, u);
    MulOf(m, 0, u * u);
    MulOf(m, u, u * u);
    SumOf(m, c, 0);
    DiffOf(m, c, 0);
    DiffOf(m, s, 0);
    MulOf(m, 0, s);
    SumOf(m, 0, s);
    MulOf(m, c, c);
    DiffOf(m, s, s);
    DiffOf(m, 0, 0);
    MulOf(m, c, 0);
    MulOf(m, 0, c);
    MulOf(m, 0, 0);
  }

  lemma ZeroResidue(m: nat, a: int)
    requires m > 0
    ensures Of(m, 0) == 0 && Mul(m, 0, a) == 0 && Mul(m, a, 0) == 0 && Diff(m, 0, 0) == 0
  {
    DivModUnique(0, m, 0, 0);
  }

  /**
   From opposite points with two bits to go, EccPoint_mult gives (0, 0) for every prime and
   every two bits; the inverse of 0 is 0, as modInv has it.
   */
  lemma OppositesEndAtZero(m: nat, inverse: int -> int, point: Point, r: (Point, Point), b1: bool, b0: bool)
    requires m > 0 && inverse(0) == 0
    requires 0 <= r.0.x < m && r.1.x == r.0.x && 0 <= r.0.y < m && 0 <= r.1.y < m && (r.0.y + r.1.y) % m == 0
    ensures LastRung(m, inverse, point, Rung(m, r, b1), b0) == Point(0, 0)
  {
    hide CoZAdd, CoZAddC, Mul, Diff, Of;
    var first, second := if b1 then r.1 else r.0, if b1 then r.0 else r.1;
    AsOpposites(m, first, second);
    var t := first.y + first.y;
    OppositesCollapse(m, first.x, first.y);
    CuspAndOrigin(m, t);
    var t' := -(t * t * t);
    CuspAndOrigin(m, t');
    OriginAndCusp(m, t');
    FromOrigins(m, inverse, point, Rung(m, r, b1), b0);
  }

  lemma AsOpposites(m: nat, p: Point, q: Point)
    requires m > 0 && 0 <= p.x < m && q.x == p.x && 0 <= p.y < m && 0 <= q.y < m && (p.y + q.y) % m == 0
    ensures p == Point(Of(m, p.x), Of(m, p.y)) && q == Point(Of(m, p.x), Of(m, -p.y))
  {
    DivModUnique(p.x, m, 0, p.x);
    DivModUnique(p.y, m, 0, p.y);
    var k := (p.y + q.y) / m;
    assert p.y + q.y == k * m;
    assert -p.y == (-k) * m + q.y;
    DivModUnique(-p.y, m, -k, q.y);
  }

  /** When the last addC gives the origin twice, so does everything after it. */
  lemma FromOrigins(m: nat, inverse: int -> int, point: Point, r: (Point, Point), bit: bool)
    requires m > 0 && inverse(0) == 0
    requires (if bit then CoZAddC(m, r.1, r.0) else CoZAddC(m, r.0, r.1)) == (Origin(m), Origin(m))
    ensures LastRung(m, inverse, point, r, bit) == Point(0, 0)
  {
    hide CoZAdd, CoZAddC, Mul, Diff, Of;
    OriginAndCusp(m, 0);
    forall a ensures Mul(m, 0, a) == 0 && Mul(m, a, 0) == 0 { ZeroResidue(m, a); }
    ZeroResidue(m, 0);
  }
}
