/**
 Scalar multiplication in src/lib/uECC.c: regularize_k and the Montgomery ladder of
 EccPoint_mult, over any commutative group.  The co-Z point steps do what their comments
 say for two finite points with different x coordinates only; outside of that nothing is
 assumed of them here, and OppositePoints.dfy follows their formulas.  The top bit of the
 scalar is implied by the bit count, so it does not matter that it is lost when the scalar
 fills its words.
 */
module Ladder {
  import opened Words
  import opened Vli
  import opened Remainder

  // ----- the group -----

  datatype Group<!G> = Group(zero: G, add: (G, G) -> G, neg: G -> G)

  ghost predicate LawsAt<G>(g: Group<G>, x: G, y: G, z: G) {
    && g.add(g.add(x, y), z) == g.add(x, g.add(y, z))
    && g.add(x, y) == g.add(y, x)
    && g.add(x, g.zero) == x
    && g.add(x, g.neg(x)) == g.zero
  }

  ghost predicate IsGroup<G(!new)>(g: Group<G>) {
    forall x, y, z :: LawsAt(g, x, y, z)
  }

  lemma Associative<G(!new)>(g: Group<G>, x: G, y: G, z: G)
    requires IsGroup(g)
    ensures g.add(g.add(x, y), z) == g.add(x, g.add(y, z))
  {
    assert LawsAt(g, x, y, z);
  }

  lemma Commutes<G(!new)>(g: Group<G>, x: G, y: G)
    requires IsGroup(g)
    ensures g.add(x, y) == g.add(y, x)
  {
    assert LawsAt(g, x, y, x);
  }

  lemma ZeroIsNeutral<G(!new)>(g: Group<G>, x: G)
    requires IsGroup(g)
    ensures g.add(x, g.zero) == x && g.add(g.zero, x) == x
  {
    assert LawsAt(g, x, g.zero, x);
  }

  lemma NegCancels<G(!new)>(g: Group<G>, x: G)
    requires IsGroup(g)
    ensures g.add(x, g.neg(x)) == g.zero && g.add(g.neg(x), x) == g.zero
  {
    assert LawsAt(g, x, g.neg(x), x);
  }

  function Times<G>(g: Group<G>, k: nat, p: G): G {
    if k == 0 then g.zero else g.add(Times(g, k - 1, p), p)
  }

  lemma {:induction false} TimesAdds<G(!new)>(g: Group<G>, j: nat, k: nat, p: G)
    requires IsGroup(g)
    ensures g.add(Times(g, j, p), Times(g, k, p)) == Times(g, j + k, p)
  {
    hide IsGroup;
    if k == 0 {
      ZeroIsNeutral(g, Times(g, j, p));
    } else {
      TimesAdds(g, j, k - 1, p);
      Associative(g, Times(g, j, p), Times(g, k - 1, p), p);
      assert j + k - 1 == j + (k - 1);
    }
  }

  /** Adding a multiple of the order changes nothing. */
  lemma {:induction false} TimesIsPeriodic<G(!new)>(g: Group<G>, k: nat, n: nat, q: nat, p: G)
    requires IsGroup(g) && Times(g, n, p) == g.zero
    ensures Times(g, k + q * n, p) == Times(g, k, p)
  {
    hide IsGroup, Times;
    if q == 0 {
      assert q * n == 0;
    } else {
      ZeroIsNeutral(g, Times(g, k, p));
      TimesIsPeriodic(g, k, n, q - 1, p);
      TimesAdds(g, k + (q - 1) * n, n, p);
      Distribute(n, q - 1, 1);
      assert k + q * n == k + (q - 1) * n + n;
    }
  }

  // ----- the point steps -----

  /** Finite points that are neither equal nor opposite: their x coordinates differ. */
  ghost predicate Apart<G>(g: Group<G>, p: G, q: G) {
    p != g.zero && q != g.zero && p != q && p != g.neg(q)
  }

  /** XYcZ_initial_double, XYcZ_add and XYcZ_addC, each giving back a pair of points with a common Z. */
  datatype Steps<!G> = Steps(double: G -> (G, G), add: (G, G) -> (G, G), addC: (G, G) -> (G, G))

  /** Their comments: P' and 2P; P' and P + Q; P - Q and P + Q. */
  ghost predicate MeetsComments<G(!new)>(g: Group<G>, st: Steps<G>) {
    && (forall p :: p != g.zero && g.add(p, p) != g.zero ==> st.double(p) == (p, g.add(p, p)))
    && (forall p, q :: Apart(g, p, q) ==> st.add(p, q) == (p, g.add(p, q)))
    && (forall p, q :: Apart(g, p, q) ==> st.addC(p, q) == (g.add(p, g.neg(q)), g.add(p, q)))
  }

  /** Both steps of a rung are given points that are apart. */
  ghost predicate RungCovered<G>(g: Group<G>, p: G, q: G) {
    Apart(g, p, q) && Apart(g, g.add(p, q), g.add(p, g.neg(q)))
  }

  /** One rung: addC, then add on its results the other way round. */
  function RungOf<G>(st: Steps<G>, p: G, q: G): (G, G) {
    var c := st.addC(p, q);
    st.add(c.1, c.0)
  }

  /** A covered rung leaves the sum in one place and the double in the other. */
  lemma Rung<G(!new)>(g: Group<G>, st: Steps<G>, p: G, q: G)
    requires IsGroup(g) && MeetsComments(g, st) && RungCovered(g, p, q)
    ensures RungOf(st, p, q) == (g.add(p, q), g.add(p, p))
  {
    hide IsGroup, Apart;
    SumAndDifference(g, p, q);
  }

  lemma SumAndDifference<G(!new)>(g: Group<G>, p: G, q: G)
    requires IsGroup(g)
    ensures g.add(g.add(p, q), g.add(p, g.neg(q))) == g.add(p, p)
  {
    var m := g.neg(q);
    Commutes(g, p, m);
    Associative(g, g.add(p, q), m, p);
    Associative(g, p, q, m);
    NegCancels(g, q);
    ZeroIsNeutral(g, p);
  }

  // ----- multiples of a point of odd order -----

  ghost predicate HasOrder<G>(g: Group<G>, p: G, n: nat) {
    n > 0 && Times(g, n, p) == g.zero && forall j :: 0 < j < n ==> Times(g, j, p) != g.zero
  }

  lemma MultipleIsZero<G(!new)>(g: Group<G>, p: G, n: nat, k: nat)
    requires IsGroup(g) && HasOrder(g, p, n)
    ensures Times(g, k, p) == g.zero <==> k % n == 0
  {
    hide IsGroup;
    var q, r := k / n, k % n;
    assert k == r + q * n;
    TimesIsPeriodic(g, r, n, q, p);
  }

  lemma OppositeIs<G(!new)>(g: Group<G>, x: G, y: G)
    requires IsGroup(g)
    ensures x == g.neg(y) <==> g.add(x, y) == g.zero
  {
    NegCancels(g, y);
    Associative(g, x, y, g.neg(y));
    ZeroIsNeutral(g, x);
    ZeroIsNeutral(g, g.neg(y));
  }

  lemma DoubleNegation<G(!new)>(g: Group<G>, x: G)
    requires IsGroup(g)
    ensures g.neg(g.neg(x)) == x && (g.neg(x) == g.zero <==> x == g.zero)
  {
    NegCancels(g, x);
    OppositeIs(g, x, g.neg(x));
    ZeroIsNeutral(g, x);
    ZeroIsNeutral(g, g.neg(x));
  }

  lemma DifferenceOfMultiples<G(!new)>(g: Group<G>, p: G, j: nat, k: nat)
    requires IsGroup(g) && j <= k
    ensures g.add(Times(g, k, p), g.neg(Times(g, j, p))) == Times(g, k - j, p)
    ensures g.add(Times(g, j, p), g.neg(Times(g, k, p))) == g.neg(Times(g, k - j, p))
  {
    hide Times, IsGroup;
    var a, b := Times(g, k - j, p), Times(g, j, p);
    var c := g.add(a, b);
    TimesAdds(g, k - j, j, p);
    Associative(g, a, b, g.neg(b));
    NegCancels(g, b);
    ZeroIsNeutral(g, a);
    var d := g.add(b, g.neg(c));
    Associative(g, a, b, g.neg(c));
    NegCancels(g, c);
    Commutes(g, a, d);
    OppositeIs(g, d, a);
  }

  /** Which multiples make the neighbours on the ladder fall together, vanish or cancel. */
  predicate Good(n: nat, m: nat)
    requires n > 0
  {
    m % n != 0 && (m + 1) % n != 0 && (2 * m + 1) % n != 0
  }

  lemma HalvesOfZero(n: nat, x: nat)
    requires n % 2 == 1
    ensures (2 * x) % n == 0 <==> x % n == 0
  {
    var h, q := n / 2, x / n;
    var r := x % n;
    assert n == 2 * h + 1 && x == q * n + r;
    Associate(2, q, n);
    if 2 * r < n {
      DivModUnique(2 * x, n, 2 * q, 2 * r);
    } else {
      Distribute(n, 2 * q, 1);
      DivModUnique(2 * x, n, 2 * q + 1, 2 * r - n);
    }
  }

  /** A rung on neighbouring multiples is covered exactly for good ones, whichever of the two comes first. */
  lemma CoveredExactlyWhen<G(!new)>(g: Group<G>, p: G, n: nat, m: nat)
    requires IsGroup(g) && HasOrder(g, p, n) && n % 2 == 1 && n > 1
    ensures RungCovered(g, Times(g, m, p), Times(g, m + 1, p)) <==> Good(n, m)
    ensures RungCovered(g, Times(g, m + 1, p), Times(g, m, p)) <==> Good(n, m)
  {
    hide IsGroup, Times, HasOrder, Apart, Good;
    NeighboursApart(g, p, n, m);
    TimesAdds(g, m, m + 1, p);
    TimesAdds(g, m + 1, m, p);
    DifferenceOfMultiples(g, p, m, m + 1);
    SumApart(g, p, n, m);
  }

  lemma NeighboursApart<G(!new)>(g: Group<G>, p: G, n: nat, m: nat)
    requires IsGroup(g) && HasOrder(g, p, n) && n > 1
    ensures Apart(g, Times(g, m, p), Times(g, m + 1, p)) <==> Good(n, m)
    ensures Apart(g, Times(g, m + 1, p), Times(g, m, p)) <==> Good(n, m)
  {
    hide Times, HasOrder, IsGroup;
    var a, b := Times(g, m, p), Times(g, m + 1, p);
    MultipleIsZero(g, p, n, m);
    MultipleIsZero(g, p, n, m + 1);
    MultipleIsZero(g, p, n, m + (m + 1));
    TimesAdds(g, m, m + 1, p);
    Commutes(g, a, b);
    OppositeIs(g, a, b);
    OppositeIs(g, b, a);
    NeighboursDiffer(g, p, n, m);
  }

  lemma NeighboursDiffer<G(!new)>(g: Group<G>, p: G, n: nat, m: nat)
    requires IsGroup(g) && HasOrder(g, p, n) && n > 1
    ensures Times(g, m, p) != Times(g, m + 1, p)
  {
    hide Times, HasOrder, IsGroup;
    MultipleIsZero(g, p, n, 1);
    DifferenceOfMultiples(g, p, m, m + 1);
    NegCancels(g, Times(g, m, p));
  }

  /** (2m + 1)P and P, or -P, are apart unless m, m + 1 or 2m + 1 is a multiple of the order. */
  lemma SumApart<G(!new)>(g: Group<G>, p: G, n: nat, m: nat)
    requires IsGroup(g) && HasOrder(g, p, n) && n % 2 == 1 && n > 1
    ensures Apart(g, Times(g, 2 * m + 1, p), Times(g, 1, p)) <==> Good(n, m)
    ensures Apart(g, Times(g, 2 * m + 1, p), g.neg(Times(g, 1, p))) <==> Good(n, m)
  {
    hide Times, HasOrder, IsGroup;
    var s, one := Times(g, 2 * m + 1, p), Times(g, 1, p);
    MultipleIsZero(g, p, n, 1);
    MultipleIsZero(g, p, n, 2 * m);
    MultipleIsZero(g, p, n, 2 * m + 1);
    MultipleIsZero(g, p, n, 2 * (m + 1));
    HalvesOfZero(n, m);
    HalvesOfZero(n, m + 1);
    TimesAdds(g, 2 * m + 1, 1, p);
    OppositeIs(g, s, one);
    DifferenceOfMultiples(g, p, 1, 2 * m + 1);
    OppositeIs(g, s, g.neg(one));
    DoubleNegation(g, one);
  }

  // ----- bits -----

  function Bit(v: nat, i: nat): nat {
    PowPositive(2, i);
    (v / Pow(2, i)) % 2
  }

  lemma LowBits(v: nat, i: nat)
    ensures Pow(2, i) > 0 && Pow(2, i + 1) > 0
    ensures v % Pow(2, i + 1) == Bit(v, i) * Pow(2, i) + v % Pow(2, i)
  {
    PowPositive(2, i);
    var p := Pow(2, i);
    var q, r := v / p, v % p;
    var h, b := q / 2, q % 2;
    assert v == h * (2 * p) + (b * p + r) by {
      Distribute(p, 2 * h, b);
      Associate(2, h, p);
      assert v == q * p + r;
    }
    assert b * p + r < 2 * p by { if b == 1 { } else { assert b * p == 0; } }
    DivModUnique(v, 2 * p, h, b * p + r);
  }

  /** Dividing away the words below, and then some bits of the next word. */
  lemma ShiftedValue(lo: nat, p: nat, top: nat, t: nat)
    requires lo < p && t > 0
    ensures (lo + p * top) / (p * t) == top / t
  {
    var q, r := top / t, top % t;
    assert lo + p * top == q * (p * t) + (p * r + lo) by {
      Distribute(p, q * t, r);
      Associate(q, p, t);
      Associate(p, q, t);
      Associate(q, t, p);
    }
    assert p * r + lo < p * t by { MulMonotone(r + 1, t, p); Distribute(p, r, 1); }
    assert p * t > 0;
    DivModUnique(lo + p * top, p * t, q, p * r + lo);
  }

  lemma WordBitInNumber(w: nat, word: nat, high: nat, t: nat)
    requires t < w && word < Pow(2, w)
    ensures Pow(2, t) > 0
    ensures ((word + Pow(2, w) * high) / Pow(2, t)) % 2 == (word / Pow(2, t)) % 2
  {
    hide Pow;
    PowPositive(2, t);
    PowAdd(2, t, w - t);
    PowStep(2, w - t - 1);
    HighPartIsEven(word, Pow(2, t), Pow(2, w - t - 1), high, Pow(2, w) * high);
  }

  lemma HighPartIsEven(word: nat, u: nat, x: nat, high: nat, part: nat)
    requires u > 0 && part == (u * (2 * x)) * high
    ensures ((word + part) / u) % 2 == (word / u) % 2
  {
    var q, r, k := word / u, word % u, x * high;
    assert word == q * u + r;
    HighPartAlgebra(word, u, x, high, q, r);
    DivModUnique(word + part, u, q + 2 * k, r);
    EvenShift(q, k);
  }

  lemma EvenShift(q: int, k: int)
    ensures (q + 2 * k) % 2 == q % 2
  {
  }

  lemma HighPartAlgebra(word: int, u: int, x: int, high: int, q: int, r: int)
    requires word == q * u + r
    ensures word + (u * (2 * x)) * high == (q + 2 * (x * high)) * u + r
  {
    Associate(u, 2 * x, high);
    Associate(2, x, high);
    Distribute(u, q, 2 * (x * high));
  }

  /** uECC_vli_testBit reads the bit of the number. */
  lemma TestBitIsBit(base: nat, w: nat, s: seq<nat>, i: nat)
    requires IsWordSize(base, w) && AreWords(base, s) && i < w * |s|
    ensures i / w < |s| && Pow(2, i % w) > 0
    ensures (s[i / w] / Pow(2, i % w)) % 2 == Bit(Val(base, s), i)
  {
    hide Val, Pow, Bit;
    var j, t := i / w, i % w;
    assert i == w * j + t;
    if j >= |s| { MulMonotone(|s|, j, w); }
    PowPositive(2, t);
    BitOfSplit(base, w, s, i, j, t);
  }

  lemma BitOfSplit(base: nat, w: nat, s: seq<nat>, i: nat, j: nat, t: nat)
    requires IsWordSize(base, w) && AreWords(base, s) && j < |s| && t < w && i == w * j + t && Pow(2, t) > 0
    ensures (s[j] / Pow(2, t)) % 2 == Bit(Val(base, s), i)
  {
    hide Val, Pow;
    ValSplit(base, s, j);
    ValBound(base, s[..j]);
    var high := Val(base, s[j + 1..]);
    assert s[j..] == [s[j]] + s[j + 1..];
    ValCons(base, s[j], s[j + 1..]);
    PowPositive(2, t);
    PowPositive(base, j);
    PowOfPow(2, w, j);
    PowAdd(2, w * j, t);
    ShiftedValue(Val(base, s[..j]), Pow(base, j), s[j] + base * high, Pow(2, t));
    WordBitInNumber(w, s[j], high, t);
  }

  method TestBit(base: nat, w: nat, vli: array<nat>, n: nat, i: nat) returns (isSet: bool)
    requires IsWordSize(base, w) && WordArray(base, vli, n) && i < w * n
    ensures isSet <==> Bit(Num(base, vli, n), i) == 1
  {
    hide Val, Pow;
    TestBitIsBit(base, w, vli[..n], i);
    var mask := Pow(2, i % w);
    isSet := (vli[i / w] / mask) % 2 == 1;
  }

  // ----- the ladder -----

  /** The number the ladder multiplies by: `bits` low bits of the scalar under an implied top bit. */
  function Implied(v: nat, bits: nat): nat {
    PowPositive(2, bits);
    Pow(2, bits) + v % Pow(2, bits)
  }

  /** k holds the bits of the implied number from i upwards. */
  predicate PrefixOf(k: nat, v: nat, bits: nat, i: nat) {
    PowPositive(2, i);
    k * Pow(2, i) + v % Pow(2, i) == Implied(v, bits)
  }

  lemma NextPrefix(k: nat, v: nat, bits: nat, i: nat)
    requires i >= 1 && PrefixOf(k, v, bits, i)
    ensures PrefixOf(2 * k + Bit(v, i - 1), v, bits, i - 1)
  {
    hide Bit, Implied;
    var b, p := Bit(v, i - 1), Pow(2, i - 1);
    LowBits(v, i - 1);
    Associate(2, k, p);
    Associate(k, 2, p);
    Distribute(p, 2 * k, b);
  }

  function Prefix(s: nat, i: nat): nat {
    PowPositive(2, i);
    s / Pow(2, i)
  }

  lemma PrefixIs(k: nat, v: nat, bits: nat, i: nat)
    requires PrefixOf(k, v, bits, i)
    ensures k == Prefix(Implied(v, bits), i)
  {
    hide Implied;
    PowPositive(2, i);
    DivModUnique(Implied(v, bits), Pow(2, i), k, v % Pow(2, i));
  }

  /** A rung on mP and (m + 1)P, in the order the scalar's bit asks for. */
  ghost predicate CoveredAt<G>(g: Group<G>, point: G, m: nat) {
    && RungCovered(g, Times(g, m, point), Times(g, m + 1, point))
    && RungCovered(g, Times(g, m + 1, point), Times(g, m, point))
  }

  ghost predicate RungsCovered<G>(g: Group<G>, point: G, s: nat, bits: nat) {
    forall i :: 1 <= i <= bits ==> CoveredAt(g, point, Prefix(s, i))
  }

  /** EccPoint_mult with num_bits = bits + 1, up to the final projection to affine coordinates. */
  method Mult<G(!new)>(g: Group<G>, st: Steps<G>, point: G, base: nat, w: nat, scalar: array<nat>, n: nat, bits: nat)
    returns (r: G)
    requires IsGroup(g) && MeetsComments(g, st)
    requires IsWordSize(base, w) && WordArray(base, scalar, n) && 1 <= bits <= w * n
    ensures var s := Implied(Num(base, scalar, n), bits); RungsCovered(g, point, s, bits) ==> r == Times(g, s, point)
  {
    hide Val, Pow, Bit, Implied, Times, PrefixOf, IsGroup, MeetsComments, CoveredAt, Prefix, RungOf;
    ghost var v := Num(base, scalar, n);
    ghost var s := Implied(v, bits);
    ghost var covered := RungsCovered(g, point, s, bits);
    ghost var k: nat := 1;
    FirstPrefix(v, bits);
    PrefixIs(k, v, bits, bits);
    if covered { Started(g, st, point); }
    var (r0, r1) := st.double(point);
    var R := [r0, r1];
    var i := bits;
    while i > 0
      invariant 0 <= i <= bits && |R| == 2
      invariant PrefixOf(k, v, bits, i)
      invariant covered ==> R[0] == Times(g, k, point) && R[1] == Times(g, k + 1, point)
    {
      PrefixIs(k, v, bits, i);
      i := i - 1;
      var isSet := TestBit(base, w, scalar, n, i);
      var nb := if isSet then 0 else 1;
      if covered { RungOnMultiples(g, st, point, k); }
      NextPrefix(k, v, bits, i + 1);
      BitIsBinary(v, i);
      var d := RungOf(st, R[1 - nb], R[nb]);
      R := R[nb := d.0][1 - nb := d.1];
      k := 2 * k + (if isSet then 1 else 0);
    }
    LastPrefix(k, v, bits);
    r := R[0];
  }

  /** The doubling before the first rung, on prefix 1. */
  lemma Started<G(!new)>(g: Group<G>, st: Steps<G>, point: G)
    requires IsGroup(g) && MeetsComments(g, st) && CoveredAt(g, point, 1)
    ensures st.double(point) == (Times(g, 1, point), Times(g, 2, point))
  {
    hide IsGroup, Times;
    Singles(g, point);
  }

  /** From mP and (m + 1)P to 2m + 1 and the double of one of the two. */
  lemma RungOnMultiples<G(!new)>(g: Group<G>, st: Steps<G>, point: G, m: nat)
    requires IsGroup(g) && MeetsComments(g, st) && CoveredAt(g, point, m)
    ensures var a, b := Times(g, m, point), Times(g, m + 1, point);
            && RungOf(st, a, b) == (Times(g, 2 * m + 1, point), Times(g, 2 * m, point))
            && RungOf(st, b, a) == (Times(g, 2 * m + 1, point), Times(g, 2 * m + 2, point))
  {
    hide IsGroup, Times, MeetsComments, RungCovered, RungOf;
    Rung(g, st, Times(g, m, point), Times(g, m + 1, point));
    Rung(g, st, Times(g, m + 1, point), Times(g, m, point));
    TimesAdds(g, m, m, point);
    TimesAdds(g, m, m + 1, point);
    TimesAdds(g, m + 1, m, point);
    TimesAdds(g, m + 1, m + 1, point);
  }

  lemma BitIsBinary(v: nat, i: nat)
    ensures Bit(v, i) == 0 || Bit(v, i) == 1
  {
  }

  lemma FirstPrefix(v: nat, bits: nat)
    ensures PrefixOf(1, v, bits, bits)
  {
  }

  lemma LastPrefix(k: nat, v: nat, bits: nat)
    requires PrefixOf(k, v, bits, 0)
    ensures k == Implied(v, bits)
  {
    hide Implied;
    assert Pow(2, 0) == 1;
  }

  lemma Singles<G(!new)>(g: Group<G>, p: G)
    requires IsGroup(g)
    ensures Times(g, 1, p) == p && Times(g, 2, p) == g.add(p, p)
  {
    ZeroIsNeutral(g, p);
    assert Times(g, 1, p) == g.add(Times(g, 0, p), p);
    assert Times(g, 2, p) == g.add(Times(g, 1, p), p);
  }

  // ----- regularization -----

  /** k + n or k + 2n, whichever has one bit more than n, is what the ladder sees. */
  lemma RegularValue(k: nat, n: nat, bits: nat, s: nat)
    requires 0 < k < n && BitLength(n, bits) && bits >= 1
    requires s == k + n || s == k + n + n
    requires Pow(2, bits) <= s < 2 * Pow(2, bits)
    ensures forall v: nat :: v == s || v == s - Pow(2, bits) ==> Implied(v, bits) == s
  {
    PowPositive(2, bits);
    var p := Pow(2, bits);
    DivModUnique(s, p, 1, s - p);
    DivModUnique(s - p, p, 0, s - p);
  }

  lemma BitAtTop(v: nat, bits: nat)
    requires v < 2 * Pow(2, bits)
    ensures Bit(v, bits) == 1 <==> v >= Pow(2, bits)
  {
    PowPositive(2, bits);
    var p := Pow(2, bits);
    if v >= p { DivModUnique(v, p, 1, v - p); } else { DivModUnique(v, p, 0, v); }
  }

  /**
   regularize_k: k0 = k + n and k1 = k + 2n, as far as they fit in the words, and a flag that
   says which one has its top bit at num_n_bits.
   */
  method RegularizeK(base: nat, w: nat, k: array<nat>, k0: array<nat>, k1: array<nat>, order: array<nat>, words: nat,
                     bits: nat)
    returns (carry: bool)
    requires IsWordSize(base, w) && bits >= 1 && w * (words - 1) < bits <= w * words
    requires WordArray(base, k, words) && WordArray(base, order, words) && words <= k0.Length && words <= k1.Length
    requires k0 != order && k0 != k1 && order != k1
    requires 0 < Num(base, k, words) < Num(base, order, words) && BitLength(Num(base, order, words), bits)
    modifies k0, k1
    ensures WordArray(base, k0, words) && WordArray(base, k1, words)
    ensures Implied(Num(base, if carry then k0 else k1, words), bits)
            == old(Num(base, k, words)) + (if carry then 1 else 2) * Num(base, order, words)
    ensures carry <==> old(Num(base, k, words)) + Num(base, order, words) >= Pow(2, bits)
  {
    hide Val, Bit, Implied, Pow;
    WordSizeIsBase(base, w);
    ghost var x, n := Num(base, k, words), Num(base, order, words);
    ghost var p := Pow(2, bits);
    PowerOfWords(base, w, words, bits);
    ghost var room := Pow(base, words);
    var over := Add(base, k0, k, order, words);
    ghost var s0 := k0[..words];
    ValBound(base, s0);
    assert x + n < 2 * p && p <= 2 * n;
    WhetherCarried(over, room);
    carry := over != 0;
    if !carry && bits < w * words {
      carry := TestBit(base, w, k0, words, bits);
      BitAtTop(Val(base, s0), bits);
    }
    ghost var over1 := Add(base, k1, k0, order, words);
    WhetherCarried(over1, room);
    ValBound(base, k1[..words]);
    assert k0[..words] == s0;
    if carry {
      assert x + n >= p;
      RegularValue(x, n, bits, x + n);
    } else {
      assert x + n < p;
      RegularValue(x, n, bits, x + n + n);
    }
  }

  lemma WhetherCarried(c: nat, p: nat)
    requires c <= 1
    ensures c * p == if c == 0 then 0 else p
  {
  }

  /** The words hold the order exactly, or with at least a bit to spare. */
  lemma PowerOfWords(base: nat, w: nat, words: nat, bits: nat)
    requires IsWordSize(base, w) && bits <= w * words && bits >= 1
    ensures bits == w * words ==> Pow(base, words) == Pow(2, bits)
    ensures bits < w * words ==> Pow(base, words) >= 2 * Pow(2, bits)
    ensures Pow(2, bits) == 2 * Pow(2, bits - 1)
  {
    PowOfPow(2, w, words);
    if bits < w * words { PowMonotone(2, bits + 1, w * words); }
  }

  // ----- which scalars the ladder handles -----

  /** The scalars whose rungs are all covered: not the last two, and not 1 unless n + 1 fills the bits. */
  predicate Handled(k: nat, n: nat, bits: nat) {
    k + 3 <= n && !(k == 1 && n + 1 < Pow(2, bits))
  }

  /** What regularize_k turns the scalar into. */
  function Chosen(k: nat, n: nat, bits: nat): nat {
    if k + n >= Pow(2, bits) then k + n else k + 2 * n
  }

  /** The prefixes that are not good: one below the order, the order, and half of one below it. */
  lemma BadPrefix(s: nat, n: nat, i: nat, m: nat)
    requires n % 2 == 1 && n >= 5 && n < s && s + 1 < 3 * n && i >= 1
    requires 0 < m && Pow(2, i) * m <= s < Pow(2, i) * m + Pow(2, i)
    ensures !Good(n, m) ==> 2 * n - 2 <= s <= 2 * n + 1
  {
    hide Pow;
    SmallPowers(i);
    var p := Pow(2, i);
    MulMonotone(2, p, m);
    if p >= 4 { MulMonotone(4, p, m); }
    if p >= 8 { MulMonotone(8, p, m); }
    assert 2 * m <= s;
    SmallMultiple(m, n, 2);
    SmallMultiple(m + 1, n, 2);
    SmallMultiple(2 * m + 1, n, 3);
  }

  lemma SmallPowers(i: nat)
    requires i >= 1
    ensures Pow(2, 1) == 2 && Pow(2, 2) == 4 && Pow(2, 3) == 8
    ensures Pow(2, i) == 2 || Pow(2, i) == 4 || Pow(2, i) >= 8
  {
    assert Pow(2, 2) == 4 && Pow(2, 3) == 8;
    if i >= 3 { PowMonotone(2, 3, i); }
  }

  /** A positive multiple of n below c * n, for small c. */
  lemma SmallMultiple(x: nat, n: nat, c: nat)
    requires n > 0 && 0 < x < c * n && 2 <= c <= 3
    ensures x % n == 0 ==> x == n || (c == 3 && x == 2 * n)
  {
    var q := x / n;
    assert x == q * n + x % n;
    assert q == 0 ==> q * n == 0;
    if q >= c { MulMonotone(c, q, n); }
  }

  /** For s around 2n, the prefix before the last but one bit is (n - 1) / 2, and the two points there are opposite. */
  lemma HalfwayPrefix(s: nat, n: nat)
    requires n % 2 == 1 && n >= 5 && 2 * n - 2 <= s <= 2 * n + 1
    ensures Prefix(s, 2) == (n - 1) / 2 && !Good(n, (n - 1) / 2)
  {
    hide Pow;
    var m := (n - 1) / 2;
    SmallPowers(2);
    assert 2 * m + 1 == n;
    DivModUnique(s, 4, m, s - 4 * m);
    DivModUnique(n, n, 1, 0);
  }

  /** All prefixes of the chosen scalar are good if and only if the ladder handles k. */
  lemma GoodExactlyWhen(k: nat, n: nat, bits: nat)
    requires 0 < k < n && n % 2 == 1 && n >= 5 && BitLength(n, bits)
    ensures var s := Chosen(k, n, bits);
            (forall i :: 1 <= i <= bits ==> Good(n, Prefix(s, i))) <==> Handled(k, n, bits)
  {
    hide Prefix, Pow, Good;
    var s, p := Chosen(k, n, bits), Pow(2, bits);
    BitsOfOrder(n, bits);
    assert p <= s < 2 * p && n < s && s + 1 < 3 * n;
    assert 2 * n - 2 <= s <= 2 * n + 1 <==> !Handled(k, n, bits);
    if Handled(k, n, bits) {
      forall i | 1 <= i <= bits ensures Good(n, Prefix(s, i)) {
        PrefixBounds(s, bits, i);
        BadPrefix(s, n, i, Prefix(s, i));
      }
    } else {
      HalfwayPrefix(s, n);
    }
  }

  lemma BitsOfOrder(n: nat, bits: nat)
    requires n % 2 == 1 && n >= 5 && BitLength(n, bits)
    ensures bits >= 3 && n < Pow(2, bits) < 2 * n && Pow(2, bits) % 2 == 0
  {
    SmallPowers(1);
    assert bits < 3 ==> Pow(2, bits) <= 4 by {
      if bits < 3 { PowMonotone(2, bits, 2); }
    }
    PowStep(2, bits - 1);
  }

  lemma PrefixBounds(s: nat, bits: nat, i: nat)
    requires i <= bits && Pow(2, bits) <= s
    ensures var m, p := Prefix(s, i), Pow(2, i); 0 < m && p * m <= s < p * m + p
  {
    hide Pow;
    PowPositive(2, i);
    PowMonotone(2, i, bits);
    var p, m := Pow(2, i), s / Pow(2, i);
    assert s == m * p + s % p;
    assert m == 0 ==> m * p == 0;
  }

  /** Every rung meets the comments of its two steps exactly when the scalar is handled. */
  lemma LadderCoveredExactlyWhen<G(!new)>(g: Group<G>, point: G, k: nat, n: nat, bits: nat)
    requires IsGroup(g) && HasOrder(g, point, n) && n % 2 == 1 && n >= 5
    requires 0 < k < n && BitLength(n, bits)
    ensures RungsCovered(g, point, Chosen(k, n, bits), bits) <==> Handled(k, n, bits)
  {
    hide IsGroup, HasOrder, Times, Good, Prefix, Pow, Handled, Chosen, RungCovered;
    var s := Chosen(k, n, bits);
    forall i | 1 <= i <= bits ensures CoveredAt(g, point, Prefix(s, i)) <==> Good(n, Prefix(s, i)) {
      CoveredExactlyWhen(g, point, n, Prefix(s, i));
    }
    GoodExactlyWhen(k, n, bits);
  }

  /**
   Every other scalar runs into opposite points with two bits to go: there the steps are given
   Q and -Q for Q = ((n - 1) / 2)P, after rungs that were all covered.
   */
  lemma UnhandledMeetsOpposites<G(!new)>(g: Group<G>, point: G, k: nat, n: nat, bits: nat)
    requires IsGroup(g) && HasOrder(g, point, n) && n % 2 == 1 && n >= 5
    requires 0 < k < n && BitLength(n, bits) && !Handled(k, n, bits)
    ensures var m := Prefix(Chosen(k, n, bits), 2);
            && m == (n - 1) / 2 && Times(g, m, point) != g.zero
            && Times(g, m + 1, point) == g.neg(Times(g, m, point))
    ensures forall i :: 3 <= i <= bits ==> CoveredAt(g, point, Prefix(Chosen(k, n, bits), i))
  {
    hide IsGroup, HasOrder, Times, Good, Prefix, Pow, RungCovered, CoveredAt;
    var s := Chosen(k, n, bits);
    BitsOfOrder(n, bits);
    assert 2 * n - 2 <= s <= 2 * n + 1;
    HalfwayPrefix(s, n);
    var m := (n - 1) / 2;
    OppositeMultiples(g, point, n, m);
    forall i | 3 <= i <= bits ensures CoveredAt(g, point, Prefix(s, i)) {
      PrefixBounds(s, bits, i);
      EarlyPrefix(s, n, i, Prefix(s, i));
      CoveredExactlyWhen(g, point, n, Prefix(s, i));
      CoveredBoth(g, point, Prefix(s, i));
    }
  }

  lemma CoveredBoth<G>(g: Group<G>, point: G, m: nat)
    requires RungCovered(g, Times(g, m, point), Times(g, m + 1, point))
    requires RungCovered(g, Times(g, m + 1, point), Times(g, m, point))
    ensures CoveredAt(g, point, m)
  {
  }

  lemma OppositeMultiples<G(!new)>(g: Group<G>, point: G, n: nat, m: nat)
    requires IsGroup(g) && HasOrder(g, point, n) && 2 * m + 1 == n && m > 0
    ensures Times(g, m, point) != g.zero && Times(g, m + 1, point) == g.neg(Times(g, m, point))
  {
    hide IsGroup, Times;
    TimesAdds(g, m + 1, m, point);
    OppositeIs(g, Times(g, m + 1, point), Times(g, m, point));
  }

  /** More than two bits before the end the prefix is below (n - 1) / 2. */
  lemma EarlyPrefix(s: nat, n: nat, i: nat, m: nat)
    requires n >= 5 && s <= 2 * n + 1 && i >= 3 && 0 < m && Pow(2, i) * m <= s
    ensures Good(n, m)
  {
    hide Pow;
    PowMonotone(2, 3, i);
    SmallPowers(3);
    MulMonotone(8, Pow(2, i), m);
    SmallIsGood(n, m);
  }

  lemma SmallIsGood(n: nat, m: nat)
    requires 0 < m && 2 * m + 1 < n
    ensures Good(n, m)
  {
    DivModUnique(m, n, 0, m);
    DivModUnique(m + 1, n, 0, m + 1);
    DivModUnique(2 * m + 1, n, 0, 2 * m + 1);
  }

  /** The scalar 1: unless n + 1 fills the bits, 2n + 1 is chosen, and the ladder meets opposite points. */
  lemma ScalarOneIsNotHandled<G(!new)>(g: Group<G>, point: G, n: nat, bits: nat)
    requires IsGroup(g) && HasOrder(g, point, n) && n % 2 == 1 && n >= 5 && BitLength(n, bits) && n + 1 < Pow(2, bits)
    ensures Chosen(1, n, bits) == 2 * n + 1 && !RungsCovered(g, point, 2 * n + 1, bits)
    ensures !RungCovered(g, Times(g, (n - 1) / 2, point), Times(g, (n + 1) / 2, point))
  {
    hide IsGroup, HasOrder, Times, RungCovered, RungsCovered, Pow;
    LadderCoveredExactlyWhen(g, point, 1, n, bits);
    HalfwayPrefix(2 * n + 1, n);
    CoveredExactlyWhen(g, point, n, (n - 1) / 2);
  }

  /**
   EccPoint_compute_public_key and every other caller of the ladder: regularize, then multiply.
   The result is kP for every scalar the ladder handles.
   */
  method RegularMult<G(!new)>(g: Group<G>, st: Steps<G>, point: G, base: nat, w: nat, k: array<nat>, order: array<nat>,
                              words: nat, bits: nat) returns (r: G)
    requires IsGroup(g) && MeetsComments(g, st)
    requires IsWordSize(base, w) && bits >= 1 && w * (words - 1) < bits <= w * words
    requires WordArray(base, k, words) && WordArray(base, order, words)
    requires 0 < Num(base, k, words) < Num(base, order, words) && BitLength(Num(base, order, words), bits)
    requires Num(base, order, words) % 2 == 1 && Num(base, order, words) >= 5
    requires HasOrder(g, point, Num(base, order, words))
    ensures Handled(Num(base, k, words), Num(base, order, words), bits) ==> r == Times(g, Num(base, k, words), point)
  {
    hide Val, Pow, Implied, Times, IsGroup, MeetsComments, HasOrder, RungsCovered, Handled;
    var k0, k1 := new nat[words], new nat[words];
    ghost var x, n := Num(base, k, words), Num(base, order, words);
    var carry := RegularizeK(base, w, k, k0, k1, order, words, bits);
    assert carry <==> x + n >= Pow(2, bits);
    r := Mult(g, st, point, base, w, if carry then k0 else k1, words, bits);
    LadderCoveredExactlyWhen(g, point, x, n, bits);
    OrderIsPeriod(g, point, n);
    TimesIsPeriodic(g, x, n, if carry then 1 else 2, point);
  }

  lemma OrderIsPeriod<G>(g: Group<G>, point: G, n: nat)
    requires HasOrder(g, point, n)
    ensures Times(g, n, point) == g.zero
  {
  }
}
