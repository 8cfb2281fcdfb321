/**
 Modular inverse by the binary extended Euclid of src/lib/uECC.c (uECC_vli_modInv):
 for every odd modulus and nonzero input the loop stops, and what it returns is the
 inverse exactly when one exists.
 */
module Inverse {
  import opened Words
  import opened Vli
  import opened Remainder

  // ----- divisors -----

  predicate Divides(d: nat, x: int) {
    d > 0 && x % d == 0
  }

  ghost predicate Common(d: nat, x: int, y: int) {
    Divides(d, x) && Divides(d, y)
  }

  ghost predicate SameDivisors(x: nat, y: nat, x': nat, y': nat) {
    forall d: nat :: Common(d, x, y) <==> Common(d, x', y')
  }

  ghost predicate Coprime(x: nat, y: nat) {
    forall d: nat :: Common(d, x, y) ==> d == 1
  }

  lemma DividesQuotient(d: nat, x: int) returns (q: int)
    requires Divides(d, x)
    ensures x == q * d
  {
    q := x / d;
  }

  lemma QuotientDivides(d: nat, q: int)
    requires d > 0
    ensures Divides(d, q * d)
  {
    DivModUnique(q * d, d, q, 0);
  }

  lemma DividesSum(d: nat, x: int, y: int)
    requires Divides(d, x) && Divides(d, y)
    ensures Divides(d, x + y) && Divides(d, x - y)
  {
    var p := DividesQuotient(d, x);
    var q := DividesQuotient(d, y);
    Distribute(d, p, q);
    Distribute(d, p, -q);
    QuotientDivides(d, p + q);
    QuotientDivides(d, p - q);
  }

  lemma DividesMultiple(d: nat, x: int, k: int)
    requires Divides(d, x)
    ensures Divides(d, k * x)
  {
    var q := DividesQuotient(d, x);
    Associate(k, q, d);
    QuotientDivides(d, k * q);
  }

  lemma TwiceParity(t: int, y: int)
    ensures (2 * t + y) % 2 == y % 2
  {
  }

  lemma OddProduct(x: int, y: int)
    requires x % 2 == 1
    ensures (x * y) % 2 == y % 2
  {
    var h := x / 2;
    assert x * y == 2 * (h * y) + y by {
      assert x == 2 * h + 1;
      Distribute(y, 2 * h, 1);
      Associate(2, h, y);
    }
    TwiceParity(h * y, y);
  }

  lemma EvenProduct(x: int, y: int)
    ensures x % 2 == 0 ==> (y * x) % 2 == 0
  {
    if x % 2 == 0 {
      Associate(2, x / 2, y);
      assert y * x == 2 * ((x / 2) * y) + 0;
      TwiceParity((x / 2) * y, 0);
    }
  }

  lemma OddDivisorOfHalf(d: nat, x: int)
    requires d % 2 == 1
    ensures Divides(d, 2 * x) <==> Divides(d, x)
  {
    hide Divides;
    if Divides(d, 2 * x) {
      var q := DividesQuotient(d, 2 * x);
      OddProduct(d, q);
      assert d * q == q * d;
      assert q % 2 == 0;
      Associate(2, q / 2, d);
      assert x == (q / 2) * d;
      QuotientDivides(d, q / 2);
    } else if Divides(d, x) {
      DividesMultiple(d, x, 2);
    }
  }

  lemma DivisorOfOddIsOdd(d: nat, x: int)
    requires x % 2 == 1 && Divides(d, x)
    ensures d % 2 == 1
  {
    var q := DividesQuotient(d, x);
    EvenProduct(d, q);
  }

  /** Halving one number, the other being odd, changes no common divisor. */
  lemma HalvingKeepsCommon(d: nat, x: nat, y: nat)
    requires x % 2 == 0 && y % 2 == 1
    ensures Common(d, x / 2, y) <==> Common(d, x, y)
  {
    hide Divides;
    if Divides(d, y) {
      DivisorOfOddIsOdd(d, y);
      OddDivisorOfHalf(d, x / 2);
      assert 2 * (x / 2) == x;
    }
  }

  /** Subtracting the smaller odd number and halving changes no common divisor. */
  lemma SubtractingKeepsCommon(d: nat, x: nat, y: nat)
    requires x > y && x % 2 == 1 && y % 2 == 1
    ensures Common(d, (x - y) / 2, y) <==> Common(d, x, y)
  {
    hide Divides;
    if Divides(d, y) {
      DivisorOfOddIsOdd(d, y);
      OddDivisorOfHalf(d, (x - y) / 2);
      assert 2 * ((x - y) / 2) == x - y;
      if Divides(d, x) { DividesSum(d, x, y); }
      if Divides(d, x - y) { DividesSum(d, x - y, y); }
    }
  }

  lemma HalvingKeepsDivisors(x: nat, y: nat, x0: nat, y0: nat)
    requires x % 2 == 0 && y % 2 == 1
    ensures SameDivisors(x, y, x0, y0) ==> SameDivisors(x / 2, y, x0, y0)
    ensures SameDivisors(y, x, x0, y0) ==> SameDivisors(y, x / 2, x0, y0)
  {
    hide Divides;
    forall d: nat ensures Common(d, x / 2, y) <==> Common(d, x, y) { HalvingKeepsCommon(d, x, y); }
    assert forall d: nat :: Common(d, y, x) <==> Common(d, x, y);
    assert forall d: nat :: Common(d, y, x / 2) <==> Common(d, x / 2, y);
  }

  lemma SubtractingKeepsDivisors(x: nat, y: nat, x0: nat, y0: nat)
    requires x > y && x % 2 == 1 && y % 2 == 1
    ensures SameDivisors(x, y, x0, y0) ==> SameDivisors((x - y) / 2, y, x0, y0)
    ensures SameDivisors(y, x, x0, y0) ==> SameDivisors(y, (x - y) / 2, x0, y0)
  {
    hide Divides;
    forall d: nat ensures Common(d, (x - y) / 2, y) <==> Common(d, x, y) { SubtractingKeepsCommon(d, x, y); }
    var h := (x - y) / 2;
    assert forall d: nat :: Common(d, y, x) <==> Common(d, x, y);
    assert forall d: nat :: Common(d, y, h) <==> Common(d, h, y);
  }

  // ----- the two congruences a = u * input and b = v * input -----

  /** a is u * x modulo m, with the quotient k. */
  predicate Bezout(a: int, u: int, x: int, k: int, m: int) {
    a == u * x + k * m
  }

  /** u / 2 modulo an odd m. */
  function HalfMod(u: nat, m: nat): nat {
    (if u % 2 == 1 then u + m else u) / 2
  }

  function MinusMod(u: nat, v: nat, m: nat): int {
    if u < v then u + m - v else u - v
  }

  lemma HalveEquation(a: nat, h: int, x: int, j: int, m: int)
    requires a == (2 * h) * x + j * m && a % 2 == 0 && m % 2 == 1
    ensures a / 2 == h * x + (j / 2) * m
  {
    Associate(2, h, x);
    OddProduct(m, j);
    assert m * j == j * m;
    assert a == 2 * (h * x) + j * m;
    TwiceParity(h * x, j * m);
    assert j % 2 == 0;
    Associate(2, j / 2, m);
    assert j * m == 2 * ((j / 2) * m);
  }

  lemma AddModulus(u: int, x: int, k: int, m: int)
    ensures u * x + k * m == (u + m) * x + (k - x) * m
  {
    Distribute(x, u, m);
    Distribute(m, k, -x);
  }

  /** Halving a matches halving u modulo an odd m. */
  lemma BezoutHalves(a: nat, u: nat, x: nat, k: int, m: nat) returns (k': int)
    requires Bezout(a, u, x, k, m) && a % 2 == 0 && m % 2 == 1
    ensures Bezout(a / 2, HalfMod(u, m), x, k', m)
  {
    var h := HalfMod(u, m);
    var j: int := if u % 2 == 1 then k - x else k;
    if u % 2 == 1 {
      AddModulus(u, x, k, m);
      assert 2 * h == u + m;
    } else {
      assert 2 * h == u;
    }
    HalveEquation(a, h, x, j, m);
    k' := j / 2;
  }

  lemma BezoutSubtracts(a: int, u: int, k: int, b: int, v: int, l: int, x: int, m: int, wrap: int)
    requires Bezout(a, u, x, k, m) && Bezout(b, v, x, l, m)
    ensures Bezout(a - b, u + wrap * m - v, x, k - l - wrap * x, m)
  {
    Distribute(x, u + wrap * m, -v);
    Distribute(x, u, wrap * m);
    Distribute(m, k - l, -(wrap * x));
    Distribute(m, k, -l);
    Associate(wrap, m, x);
  }

  lemma BezoutRemainder(a: nat, u: int, x: int, k: int, m: nat)
    requires Bezout(a, u, x, k, m) && m > 0
    ensures (u * x) % m == a % m
  {
    var q, r := a / m, a % m;
    Distribute(m, q, -k);
    DivModUnique(u * x, m, q - k, r);
  }

  // ----- word-level steps -----

  lemma HalfOfCarry(base: nat, n: nat, t: nat, c: nat, s: nat)
    requires IsBase(base) && n >= 1 && t + c * Pow(base, n) == s && c <= 1 && s % 2 == 0
    ensures t / 2 + (if c == 1 then Pow(base, n - 1) * (base / 2) else 0) == s / 2
  {
    hide Pow;
    PowStep(base, n - 1);
    var p := Pow(base, n - 1);
    Associate(2, base / 2, p);
    assert base * p == 2 * ((base / 2) * p);
    if c == 1 { assert c * (base * p) == base * p; }
  }

  /** uv := uv / 2 modulo an odd mod; the carry of uv + mod comes back as the top bit. */
  method Update(base: nat, uv: array<nat>, mod: array<nat>, n: nat)
    requires IsBase(base) && n >= 1 && uv != mod && uv.Length == n
    requires WordArray(base, uv, n) && WordArray(base, mod, n)
    requires Num(base, mod, n) % 2 == 1 && Num(base, uv, n) < Num(base, mod, n)
    modifies uv
    ensures WordArray(base, uv, n) && Num(base, uv, n) < Num(base, mod, n)
    ensures Num(base, uv, n) == HalfMod(old(Num(base, uv, n)), Num(base, mod, n))
  {
    hide Val, Pow;
    ghost var u, m := Num(base, uv, n), Num(base, mod, n);
    ghost var s := if u % 2 == 1 then u + m else u;
    ValParity(base, uv[..n]);
    var carry := 0;
    if uv[0] % 2 != 0 {
      carry := Add(base, uv, uv, mod, n);
    }
    ghost var t := uv[..n];
    assert uv[0..0 + n] == t;
    Rshift1(base, uv, 0, n);
    assert uv[0..0 + n] == uv[..n];
    ghost var half := uv[..n];
    TopBitClear(base, t, half);
    HalfOfCarry(base, n, Val(base, t), carry, s);
    if carry != 0 {
      uv[n - 1] := uv[n - 1] + base / 2;
      assert uv[..n] == half[..n - 1] + [half[n - 1] + base / 2];
      LowHalf(base, t, half, uv[..n], base / 2);
    }
  }

  /** u := u - v modulo mod; when u < v the carry of u + mod and the borrow of the subtraction cancel. */
  method SubtractMod(base: nat, u: array<nat>, v: array<nat>, mod: array<nat>, n: nat)
    requires IsBase(base) && u != mod && u != v && u.Length == n
    requires WordArray(base, u, n) && WordArray(base, v, n) && WordArray(base, mod, n)
    requires Num(base, u, n) < Num(base, mod, n) && Num(base, v, n) < Num(base, mod, n)
    modifies u
    ensures WordArray(base, u, n)
    ensures Num(base, u, n) == MinusMod(old(Num(base, u, n)), Num(base, v, n), Num(base, mod, n))
  {
    hide Val, Pow;
    var less := Cmp(base, u, v, n);
    ghost var carry := 0;
    if less < 0 {
      carry := Add(base, u, u, mod, n);
    }
    ghost var borrow := Sub(base, u, u, v, n);
    ValBound(base, u[..n]);
    ValBound(base, mod[..n]);
    CarryMeetsBorrow(Pow(base, n), carry, borrow);
  }

  lemma CarryMeetsBorrow(p: nat, carry: nat, borrow: nat)
    requires carry <= 1 && borrow <= 1
    ensures carry * p == (if carry == 1 then p else 0) && borrow * p == (if borrow == 1 then p else 0)
  {
  }

  // ----- the loop -----

  /** What the loop keeps: the congruences, the ranges, an odd number, and the common divisors. */
  ghost predicate Inverting(a: nat, b: nat, u: nat, v: nat, ku: int, kv: int, x: nat, m: nat) {
    && a > 0 && b > 0 && u < m && v < m
    && (a % 2 == 1 || b % 2 == 1)
    && Bezout(a, u, x, ku, m) && Bezout(b, v, x, kv, m)
    && SameDivisors(a, b, x, m)
  }

  lemma HalveA(a: nat, b: nat, u: nat, v: nat, ku: int, kv: int, x: nat, m: nat) returns (k: int)
    requires Inverting(a, b, u, v, ku, kv, x, m) && m % 2 == 1 && a % 2 == 0
    ensures Inverting(a / 2, b, HalfMod(u, m), v, k, kv, x, m)
  {
    hide Bezout, SameDivisors;
    k := BezoutHalves(a, u, x, ku, m);
    HalvingKeepsDivisors(a, b, x, m);
  }

  lemma HalveB(a: nat, b: nat, u: nat, v: nat, ku: int, kv: int, x: nat, m: nat) returns (k: int)
    requires Inverting(a, b, u, v, ku, kv, x, m) && m % 2 == 1 && b % 2 == 0
    ensures Inverting(a, b / 2, u, HalfMod(v, m), ku, k, x, m)
  {
    hide Bezout, SameDivisors;
    k := BezoutHalves(b, v, x, kv, m);
    HalvingKeepsDivisors(b, a, x, m);
  }

  lemma ReduceA(a: nat, b: nat, u: nat, v: nat, ku: int, kv: int, x: nat, m: nat) returns (k: int)
    requires Inverting(a, b, u, v, ku, kv, x, m) && m % 2 == 1 && a % 2 == 1 && b % 2 == 1 && a > b
    ensures 0 <= MinusMod(u, v, m) < m
    ensures Inverting((a - b) / 2, b, HalfMod(MinusMod(u, v, m), m), v, k, kv, x, m)
  {
    hide Bezout, SameDivisors;
    var wrap := if u < v then 1 else 0;
    BezoutSubtracts(a, u, ku, b, v, kv, x, m, wrap);
    k := BezoutHalves(a - b, MinusMod(u, v, m), x, ku - kv - wrap * x, m);
    SubtractingKeepsDivisors(a, b, x, m);
  }

  lemma ReduceB(a: nat, b: nat, u: nat, v: nat, ku: int, kv: int, x: nat, m: nat) returns (k: int)
    requires Inverting(a, b, u, v, ku, kv, x, m) && m % 2 == 1 && a % 2 == 1 && b % 2 == 1 && b > a
    ensures 0 <= MinusMod(v, u, m) < m
    ensures Inverting(a, (b - a) / 2, u, HalfMod(MinusMod(v, u, m), m), ku, k, x, m)
  {
    hide Bezout, SameDivisors;
    var wrap := if v < u then 1 else 0;
    BezoutSubtracts(b, v, kv, a, u, ku, x, m, wrap);
    k := BezoutHalves(b - a, MinusMod(v, u, m), x, kv - ku - wrap * x, m);
    SubtractingKeepsDivisors(b, a, x, m);
  }

  lemma Start(x: nat, m: nat)
    requires x > 0 && m > 1 && m % 2 == 1
    ensures Inverting(x, m, 1, 0, 0, 1, x, m)
  {
  }

  ghost predicate IsGcd(g: nat, x: nat, y: nat) {
    Common(g, x, y) && forall d: nat :: Common(d, x, y) ==> Divides(d, g)
  }

  /** r * x is the greatest common divisor modulo m, so r inverts x exactly when x and m are coprime. */
  ghost predicate Inverts(r: nat, x: nat, m: nat) {
    && r < m
    && (exists g: nat :: IsGcd(g, x, m) && (r * x) % m == g % m)
    && ((r * x) % m == 1 <==> Coprime(x, m))
  }

  /** At the end both numbers are the greatest common divisor, and the congruence decides invertibility. */
  lemma Finish(a: nat, u: nat, v: nat, ku: int, kv: int, x: nat, m: nat)
    requires Inverting(a, a, u, v, ku, kv, x, m) && m > 1
    ensures Inverts(u, x, m)
  {
    hide Bezout, Divides;
    QuotientDivides(a, 1);
    assert 1 * a == a;
    assert Common(a, a, a);
    forall d: nat | Common(d, x, m) ensures Divides(d, a) {
      assert Common(d, a, a);
    }
    assert IsGcd(a, x, m);
    BezoutRemainder(a, u, x, ku, m);
    if Coprime(x, m) {
      assert a == 1;
      DivModUnique(1, m, 0, 1);
    }
    if (u * x) % m == 1 {
      forall d: nat | Common(d, x, m) ensures d == 1 { UnitDivisor(d, u, x, m); }
    }
  }

  lemma UnitDivisor(d: nat, u: nat, x: nat, m: nat)
    requires Common(d, x, m) && m > 0 && (u * x) % m == 1
    ensures d == 1
  {
    var q := (u * x) / m;
    assert u * x == q * m + 1;
    DividesMultiple(d, x, u);
    DividesMultiple(d, m, q);
    DividesSum(d, u * x, q * m);
    assert u * x - q * m == 1;
    if d > 1 { DivModUnique(1, d, 0, 1); }
  }

  method ModInv(base: nat, result: array<nat>, input: array<nat>, mod: array<nat>, n: nat)
    requires IsBase(base) && n >= 1 && n <= result.Length
    requires WordArray(base, input, n) && WordArray(base, mod, n)
    requires Num(base, mod, n) > 1 && Num(base, mod, n) % 2 == 1
    modifies result
    ensures WordArray(base, result, n)
    ensures old(Num(base, input, n)) == 0 ==> Num(base, result, n) == 0
    ensures Inverts(Num(base, result, n), old(Num(base, input, n)), old(Num(base, mod, n)))
  {
    hide Val, Pow, Inverts, Inverting;
    ghost var x, m := Num(base, input, n), Num(base, mod, n);
    var zero := IsZero(base, input, n);
    if zero {
      Clear(result, n);
      ValZeros(base, result[..n]);
      ZeroInput(m);
      return;
    }
    var a, b := new nat[n], new nat[n];
    Set(a, input, n);
    Set(b, mod, n);
    var u := NewSmall(base, n, 1);
    var v := NewSmall(base, n, 0);
    ghost var ku: int, kv: int := 0, 1;
    Start(x, m);
    assert a[..n] == input[..n] && b[..n] == mod[..n];
    ghost var md := mod[..n];
    var cmp := Cmp(base, a, b, n);
    while cmp != 0
      invariant WordArray(base, a, n) && WordArray(base, b, n) && WordArray(base, u, n) && WordArray(base, v, n)
      invariant Inverting(Num(base, a, n), Num(base, b, n), Num(base, u, n), Num(base, v, n), ku, kv, x, m)
      invariant cmp == 0 <==> a[..n] == b[..n]
      invariant cmp > 0 <==> Num(base, a, n) > Num(base, b, n)
      invariant cmp < 0 <==> Num(base, a, n) < Num(base, b, n)
      invariant mod[..n] == md
      decreases Num(base, a, n) + Num(base, b, n)
    {
      ku, kv := Iterate(base, a, b, u, v, mod, n, cmp, ku, kv, x);
      cmp := Cmp(base, a, b, n);
    }
    Finish(Num(base, a, n), Num(base, u, n), Num(base, v, n), ku, kv, x, m);
    Set(result, u, n);
  }

  lemma ZeroInput(m: nat)
    requires m > 1
    ensures Inverts(0, 0, m)
  {
    QuotientDivides(m, 1);
    QuotientDivides(m, 0);
    assert IsGcd(m, 0, m);
    assert Common(m, 0, m);
  }

  lemma SmallNumber(base: nat, s: seq<nat>, w: nat)
    requires base > 1 && s != [] && s[0] == w <= 1 && forall i :: 1 <= i < |s| ==> s[i] == 0
    ensures Val(base, s) == w && AreWords(base, s)
  {
    ValZeros(base, s[1..]);
  }

  method NewSmall(base: nat, n: nat, w: nat) returns (u: array<nat>)
    requires base > 1 && n >= 1 && w <= 1
    ensures fresh(u) && u.Length == n && WordArray(base, u, n) && Num(base, u, n) == w
  {
    u := new nat[n];
    Clear(u, n);
    u[0] := w;
    SmallNumber(base, u[..n], w);
  }

  /** One pass of the loop: every branch halves something, so a + b goes down. */
  method Iterate(base: nat, a: array<nat>, b: array<nat>, u: array<nat>, v: array<nat>, mod: array<nat>, n: nat,
                 cmp: int,
                 ghost ku: int, ghost kv: int, ghost x: nat) returns (ghost ku': int, ghost kv': int)
    requires IsBase(base) && n >= 1 && a.Length == b.Length == u.Length == v.Length == n
    requires a != b && a != u && a != v && b != u && b != v && u != v
    requires mod != a && mod != b && mod != u && mod != v
    requires WordArray(base, a, n) && WordArray(base, b, n) && WordArray(base, u, n) && WordArray(base, v, n)
    requires WordArray(base, mod, n) && Num(base, mod, n) % 2 == 1
    requires Inverting(Num(base, a, n), Num(base, b, n), Num(base, u, n), Num(base, v, n), ku, kv, x, Num(base, mod, n))
    requires cmp != 0 && (cmp > 0 <==> Num(base, a, n) > Num(base, b, n))
             && (cmp < 0 <==> Num(base, a, n) < Num(base, b, n))
    modifies a, b, u, v
    ensures WordArray(base, a, n) && WordArray(base, b, n) && WordArray(base, u, n) && WordArray(base, v, n)
    ensures Inverting(Num(base, a, n), Num(base, b, n), Num(base, u, n), Num(base, v, n), ku', kv', x,
            Num(base, mod, n))
    ensures Num(base, a, n) + Num(base, b, n) < old(Num(base, a, n)) + old(Num(base, b, n))
    ensures mod[..n] == old(mod[..n])
  {
    hide Val, Pow, SameDivisors, Bezout, HalfMod, MinusMod;
    ghost var na, nb, nu, nv, m := Num(base, a, n), Num(base, b, n), Num(base, u, n), Num(base, v, n),
        Num(base, mod, n);
    ku', kv' := ku, kv;
    ValParity(base, a[..n]);
    ValParity(base, b[..n]);
    if a[0] % 2 == 0 {
      ku' := HalveA(na, nb, nu, nv, ku, kv, x, m);
      Halve(base, a, n);
      Update(base, u, mod, n);
    } else if b[0] % 2 == 0 {
      kv' := HalveB(na, nb, nu, nv, ku, kv, x, m);
      Halve(base, b, n);
      Update(base, v, mod, n);
    } else if cmp > 0 {
      ku' := ReduceA(na, nb, nu, nv, ku, kv, x, m);
      SubtractHalve(base, a, b, n);
      SubtractMod(base, u, v, mod, n);
      Update(base, u, mod, n);
    } else {
      kv' := ReduceB(na, nb, nu, nv, ku, kv, x, m);
      SubtractHalve(base, b, a, n);
      SubtractMod(base, v, u, mod, n);
      Update(base, v, mod, n);
    }
  }

  method Halve(base: nat, a: array<nat>, n: nat)
    requires IsBase(base) && a.Length == n && WordArray(base, a, n)
    modifies a
    ensures WordArray(base, a, n) && Num(base, a, n) == old(Num(base, a, n)) / 2
  {
    assert a[0..0 + n] == a[..n];
    Rshift1(base, a, 0, n);
    assert a[0..0 + n] == a[..n];
  }

  method SubtractHalve(base: nat, a: array<nat>, b: array<nat>, n: nat)
    requires IsBase(base) && a.Length == n && a != b && WordArray(base, a, n) && WordArray(base, b, n)
    requires Num(base, a, n) > Num(base, b, n)
    modifies a
    ensures WordArray(base, a, n) && Num(base, a, n) == (old(Num(base, a, n)) - Num(base, b, n)) / 2
  {
    hide Val, Pow;
    ghost var borrow := Sub(base, a, a, b, n);
    ValBound(base, a[..n]);
    CarryMeetsBorrow(Pow(base, n), 0, borrow);
    Halve(base, a, n);
  }
}
