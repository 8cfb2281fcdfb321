/**
 The co-Z point steps of src/lib/uECC.c on points with different x coordinates: their formulas
 are the chord law of the curve, in coordinates whose Z is the difference of the x coordinates.
 */
module ChordPoints {
  import opened Words
  import opened OppositePoints

  /** The affine point (x, y) in coordinates with Z = d. */
  function Scaled(m: nat, d: int, x: int, y: int): Point
    requires m > 0
  {
    Point(Of(m, d * d * x), Of(m, d * d * d * y))
  }

  /** The third point of the chord with slope s, turned over: the sum of the two points on it. */
  function ChordX(s: int, x1: int, x2: int): int { s * s - x1 - x2 }

  function ChordY(s: int, x1: int, y1: int, x2: int): int { s * (x1 - ChordX(s, x1, x2)) - y1 }

  function At(m: nat, x: int, y: int): Point
    requires m > 0
  {
    Point(Of(m, x), Of(m, y))
  }

  // ----- arithmetic -----

  lemma SquareOfProduct(s: int, d: int)
    ensures (s * d) * (s * d) == (d * d) * (s * s)
  {
    Associate(s, d, s * d);
    Associate(d, s, d);
    Associate(d, d, s);
    Associate(s, d * d, s);
    assert d * (s * d) == (d * d) * s;
    assert s * ((d * d) * s) == (d * d) * (s * s) by { Associate(d * d, s, s); Associate(s, d * d, s); }
  }

  lemma XOfSum(a: int, s: int, x1: int, x2: int)
    ensures a * (s * s) - x1 * a - x2 * a == a * ChordX(s, x1, x2)
  {
    Distribute(a, s * s, -x1 - x2);
    Distribute(a, -x1, -x2);
  }

  /** (s d) (a u) - y (d a) is d a (s u - y). */
  lemma YOfSum(a: int, d: int, s: int, u: int, y: int)
    ensures (s * d) * (a * u) - y * (d * a) == (d * a) * (s * u - y)
  {
    Associate(s, d, a * u);
    Associate(d, a, u);
    assert d * (a * u) == (d * a) * u;
    Associate(d * a, s, u);
    Associate(s, d * a, u);
    Distribute(d * a, s * u, -y);
    assert s * ((d * a) * u) == (d * a) * (s * u);
  }

  // ----- the steps -----

  /** Residues shared by both steps. */
  lemma Shared(m: nat, x1: int, x2: int)
    requires m > 0
    ensures var d := x2 - x1;
            && Diff(m, Of(m, x2), Of(m, x1)) == Of(m, d)
            && Mul(m, Of(m, d), Of(m, d)) == Of(m, d * d)
            && Mul(m, Of(m, x1), Of(m, d * d)) == Of(m, x1 * (d * d))
            && Mul(m, Of(m, x2), Of(m, d * d)) == Of(m, x2 * (d * d))
            && Diff(m, Of(m, x2 * (d * d)), Of(m, x1 * (d * d))) == Of(m, d * (d * d))
  {
    hide Sum, Diff, Mul, Of;
    var d := x2 - x1;
    DiffOf(m, x2, x1);
    MulOf(m, d, d);
    MulOf(m, x1, d * d);
    MulOf(m, x2, d * d);
    DiffOf(m, x2 * (d * d), x1 * (d * d));
    Distribute(d * d, x2, -x1);
  }

  /** A slope times d in place of a difference of y coordinates. */
  lemma BySlope(m: nat, n: int, s: int, d: int)
    requires m > 0 && (n - s * d) % m == 0
    ensures Of(m, n) == Of(m, s * d)
  {
    var k := (n - s * d) / m;
    Shift(m, n, s * d, k);
  }

  /** The x coordinate of a sum by its slope, as each step computes it from B and C. */
  lemma SumX(m: nat, x1: int, x2: int, d: int, s: int)
    requires m > 0
    ensures var a, n, x3 := d * d, s * d, (d * d) * ChordX(s, x1, x2);
            && Diff(m, Diff(m, Mul(m, Of(m, n), Of(m, n)), Of(m, x1 * a)), Of(m, x2 * a)) == Of(m, x3)
            && Diff(m, Mul(m, Of(m, n), Of(m, n)), Sum(m, Of(m, x1 * a), Of(m, x2 * a))) == Of(m, x3)
  {
    hide Sum, Diff, Mul, Of, ChordX;
    var a, n := d * d, s * d;
    MulOf(m, n, n);
    SquareOfProduct(s, d);
    XOfSum(a, s, x1, x2);
    var b, c, q := x1 * a, x2 * a, a * (s * s);
    DiffOf(m, q, b);
    DiffOf(m, q - b, c);
    SumOf(m, b, c);
    DiffOf(m, q, b + c);
    assert q - (b + c) == q - b - c;
  }

  /** And the y coordinate, from E besides. */
  lemma SumY(m: nat, x1: int, y1: int, d: int, s: int, cx: int)
    requires m > 0
    ensures var a, n := d * d, s * d;
            Diff(m, Mul(m, Of(m, n), Diff(m, Of(m, x1 * a), Of(m, a * cx))), Of(m, y1 * (d * a)))
            == Of(m, (d * a) * (s * (x1 - cx) - y1))
  {
    hide Sum, Diff, Mul, Of;
    var a, n := d * d, s * d;
    DiffOf(m, x1 * a, a * cx);
    Distribute(a, x1, -cx);
    MulOf(m, n, a * (x1 - cx));
    DiffOf(m, n * (a * (x1 - cx)), y1 * (d * a));
    YOfSum(a, d, s, x1 - cx, y1);
  }

  lemma SumStep(m: nat, x1: int, y1: int, x2: int, s: int)
    requires m > 0
    ensures var d := x2 - x1;
            var a, n, x3 := d * d, s * d, (d * d) * ChordX(s, x1, x2);
            && Diff(m, Diff(m, Mul(m, Of(m, n), Of(m, n)), Of(m, x1 * a)), Of(m, x2 * a)) == Of(m, x3)
            && Diff(m, Mul(m, Of(m, n), Of(m, n)), Sum(m, Of(m, x1 * a), Of(m, x2 * a))) == Of(m, x3)
            && Diff(m, Mul(m, Of(m, n), Diff(m, Of(m, x1 * a), Of(m, x3))), Of(m, y1 * (d * a)))
               == Of(m, (d * a) * ChordY(s, x1, y1, x2))
  {
    hide Sum, Diff, Mul, Of, ChordX;
    SumX(m, x1, x2, x2 - x1, s);
    SumY(m, x1, y1, x2 - x1, s, ChordX(s, x1, x2));
  }

  lemma InScale(m: nat, d: int, x: int, y: int)
    requires m > 0
    ensures Scaled(m, d, x, y) == Point(Of(m, (d * d) * x), Of(m, (d * (d * d)) * y))
    ensures Scaled(m, d, x, y) == Point(Of(m, x * (d * d)), Of(m, y * (d * (d * d))))
  {
    hide Of;
    Associate(d, d, d);
  }

  /** XYcZ_add: the first point and the sum, for the slope s of the chord. */
  lemma AddIsChord(m: nat, x1: int, y1: int, x2: int, y2: int, s: int)
    requires m > 0 && (y2 - y1 - s * (x2 - x1)) % m == 0
    ensures CoZAdd(m, At(m, x1, y1), At(m, x2, y2))
         == (Scaled(m, x2 - x1, x1, y1),
             Scaled(m, x2 - x1, ChordX(s, x1, x2), ChordY(s, x1, y1, x2)))
  {
    hide Sum, Diff, Mul, Of, ChordX, ChordY, Scaled;
    var d := x2 - x1;
    Shared(m, x1, x2);
    DiffOf(m, y2, y1);
    BySlope(m, y2 - y1, s, d);
    MulOf(m, y1, d * (d * d));
    SumStep(m, x1, y1, x2, s);
    InScale(m, d, x1, y1);
    InScale(m, d, ChordX(s, x1, x2), ChordY(s, x1, y1, x2));
  }

  /** XYcZ_addC: the difference and the sum, for the slopes to the second point turned over and to itself. */
  lemma AddCIsChords(m: nat, x1: int, y1: int, x2: int, y2: int, s: int, s': int)
    requires m > 0 && (y2 - y1 - s * (x2 - x1)) % m == 0 && (-y2 - y1 - s' * (x2 - x1)) % m == 0
    ensures CoZAddC(m, At(m, x1, y1), At(m, x2, y2))
         == (Scaled(m, x2 - x1, ChordX(s', x1, x2), ChordY(s', x1, y1, x2)),
             Scaled(m, x2 - x1, ChordX(s, x1, x2), ChordY(s, x1, y1, x2)))
  {
    hide Sum, Diff, Mul, Of, ChordX, ChordY, Scaled;
    var d := x2 - x1;
    var a, n', cx := d * d, s' * d, ChordX(s', x1, x2);
    Shared(m, x1, x2);
    DiffOf(m, y2, y1);
    BySlope(m, y2 - y1, s, d);
    MulOf(m, y1, d * a);
    SumStep(m, x1, y1, x2, s);
    SumStep(m, x1, y1, x2, s');
    InScale(m, d, ChordX(s, x1, x2), ChordY(s, x1, y1, x2));
    InScale(m, d, cx, ChordY(s', x1, y1, x2));
    SumOf(m, y2, y1);
    BySlope(m, -y2 - y1, s', d);
    assert -(y2 + y1) == -y2 - y1;
    TurnedOver(m, y2 + y1, n', a * cx, x1 * a);
  }

  /** Two signs cancel: the step takes (y2 + y1) (x4 - B) where the law has (-y2 - y1) (B - x4). */
  lemma TurnedOver(m: nat, n: int, n': int, x: int, b: int)
    requires m > 0 && Of(m, -n) == Of(m, n')
    ensures Mul(m, Of(m, n), Of(m, n)) == Mul(m, Of(m, n'), Of(m, n'))
    ensures Mul(m, Diff(m, Of(m, x), Of(m, b)), Of(m, n)) == Mul(m, Of(m, n'), Diff(m, Of(m, b), Of(m, x)))
  {
    hide Sum, Diff, Mul, Of;
    MulOf(m, n, n);
    MulOf(m, -n, -n);
    DiffOf(m, x, b);
    DiffOf(m, b, x);
    MulOf(m, x - b, n);
    MulOf(m, -n, b - x);
    Negated(n, x - b);
  }

  lemma Negated(n: int, u: int)
    ensures (-n) * (-n) == n * n && (-n) * (-u) == u * n
  {
  }
}
