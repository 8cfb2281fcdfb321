/**
 Product scanning (uECC_vli_mult): the product is built one column at a time in a
 three-word accumulator.  The columns of two numbers add up to the product of the numbers.
 */
module Product {
  import opened Words
  import opened Vli

  // ----- columns -----

  /** What row i of the schoolbook multiplication puts in column k. */
  function Term(l: seq<nat>, r: seq<nat>, k: nat, i: nat): nat
    requires i < |l|
  {
    if i <= k < i + |r| then l[i] * r[k - i] else 0
  }

  /** Column k of the first m rows. */
  function Column(l: seq<nat>, r: seq<nat>, k: nat, m: nat): nat
    requires m <= |l|
  {
    if m == 0 then 0 else Column(l, r, k, m - 1) + Term(l, r, k, m - 1)
  }

  /** The value of the first k columns of the first m rows. */
  function Columns(base: nat, l: seq<nat>, r: seq<nat>, k: nat, m: nat): nat
    requires m <= |l|
  {
    if k == 0 then 0 else Columns(base, l, r, k - 1, m) + Pow(base, k - 1) * Column(l, r, k - 1, m)
  }

  /** The value of row i, cut off at column k. */
  function Row(base: nat, l: seq<nat>, r: seq<nat>, k: nat, i: nat): nat
    requires i < |l|
  {
    if k == 0 then 0 else Row(base, l, r, k - 1, i) + Pow(base, k - 1) * Term(l, r, k - 1, i)
  }

  lemma ColumnsStep(base: nat, l: seq<nat>, r: seq<nat>, k: nat, m: nat)
    requires m <= |l|
    ensures Columns(base, l, r, k + 1, m) == Columns(base, l, r, k, m) + Pow(base, k) * Column(l, r, k, m)
  {
  }

  lemma RowAlgebra(w: int, p: int, q: int, v: int, x: int)
    ensures w * (p * (v + q * x)) == w * (p * v) + (p * q) * (w * x)
  {
    Distribute(p, v, q * x);
    Distribute(w, p * v, p * (q * x));
    Associate(p, q, x);
    Associate(w, p * q, x);
    Associate(p * q, w, x);
  }

  lemma {:induction false} RowValue(base: nat, l: seq<nat>, r: seq<nat>, k: nat, i: nat)
    requires i < |l|
    ensures Row(base, l, r, k, i) ==
            if k <= i then 0
            else l[i] * (Pow(base, i) * Val(base, if k - i <= |r| then r[..k - i] else r))
  {
    if k == 0 {
    } else {
      RowValue(base, l, r, k - 1, i);
      if i <= k - 1 < i + |r| {
        var j := k - 1 - i;
        ValSnoc(base, r, j);
        PowAdd(base, i, j);
        RowAlgebra(l[i], Pow(base, i), Pow(base, j), Val(base, r[..j]), r[j]);
        assert j + 1 == k - i;
        if j == 0 { assert r[..0] == []; }
      } else if k - 1 >= i + |r| {
        if k - 1 - i == |r| { assert r[..|r|] == r; }
        if k - 1 == i { assert r == []; }
      }
    }
  }

  lemma {:induction false} ColumnsGainRow(base: nat, l: seq<nat>, r: seq<nat>, k: nat, m: nat)
    requires m < |l|
    ensures Columns(base, l, r, k, m + 1) == Columns(base, l, r, k, m) + Row(base, l, r, k, m)
  {
    if k > 0 {
      ColumnsGainRow(base, l, r, k - 1, m);
      Distribute(Pow(base, k - 1), Column(l, r, k - 1, m), Term(l, r, k - 1, m));
    }
  }

  lemma ColumnOfNoRows(l: seq<nat>, r: seq<nat>, k: nat)
    ensures Column(l, r, k, 0) == 0
  {
  }

  lemma {:induction false} ColumnsOfNoRows(base: nat, l: seq<nat>, r: seq<nat>, k: nat)
    ensures Columns(base, l, r, k, 0) == 0
  {
    if k > 0 { ColumnsOfNoRows(base, l, r, k - 1); }
  }

  lemma RowAdds(x: int, p: int, w: int, v: int)
    ensures (x + p * w) * v == x * v + w * (p * v)
  {
    Distribute(v, x, p * w);
    Associate(p, w, v);
    Associate(w, p, v);
  }

  /** All columns together are the product. */
  lemma {:induction false} ColumnsAreProduct(base: nat, l: seq<nat>, r: seq<nat>, k: nat, m: nat)
    requires m <= |l| && m + |r| <= k
    ensures Columns(base, l, r, k, m) == Val(base, l[..m]) * Val(base, r)
  {
    hide Val, Pow;
    if m == 0 {
      ColumnsOfNoRows(base, l, r, k);
      assert l[..0] == [];
      ValEmpty(base);
    } else {
      ColumnsAreProduct(base, l, r, k, m - 1);
      ColumnsGainRow(base, l, r, k, m - 1);
      RowValue(base, l, r, k, m - 1);
      ValSnoc(base, l, m - 1);
      assert r[..|r|] == r;
      RowAdds(Val(base, l[..m - 1]), Pow(base, m - 1), l[m - 1], Val(base, r));
    }
  }

  /** Rows that do not reach column k add nothing to it. */
  lemma {:induction false} ColumnRange(l: seq<nat>, r: seq<nat>, k: nat, m: nat, m': nat)
    requires m <= m' <= |l|
    requires k < m || m' + |r| <= k + 1
    ensures Column(l, r, k, m') == Column(l, r, k, m)
  {
    if m < m' { ColumnRange(l, r, k, m, m' - 1); }
  }

  lemma TermBound(base: nat, l: seq<nat>, r: seq<nat>, k: nat, i: nat)
    requires base > 0 && AreWords(base, l) && AreWords(base, r) && i < |l|
    ensures Term(l, r, k, i) <= (base - 1) * (base - 1)
  {
    if i <= k < i + |r| {
      MulMonotone(l[i], base - 1, r[k - i]);
      MulMonotone(r[k - i], base - 1, base - 1);
    }
  }

  lemma {:induction false} ColumnBound(base: nat, l: seq<nat>, r: seq<nat>, k: nat, m: nat)
    requires base > 0 && AreWords(base, l) && AreWords(base, r) && m <= |l|
    ensures Column(l, r, k, m) <= m * ((base - 1) * (base - 1))
  {
    if m > 0 {
      ColumnBound(base, l, r, k, m - 1);
      TermBound(base, l, r, k, m - 1);
      Distribute((base - 1) * (base - 1), m - 1, 1);
    }
  }

  // ----- the accumulator -----

  function Acc(base: nat, r0: nat, r1: nat, r2: nat): nat {
    r0 + base * (r1 + base * r2)
  }

  /** A column never overflows three words, as long as there are no more words than a word can count. */
  lemma RoomForTerm(base: nat, n: nat, i: nat, carried: nat, column: nat, term: nat)
    requires IsBase(base) && i < n <= base
    requires carried <= n * (base - 1) && column <= i * ((base - 1) * (base - 1)) && term <= (base - 1) * (base - 1)
    ensures carried + column + term < base * (base * base)
  {
    var b, s := base - 1, (base - 1) * (base - 1);
    assert column + term <= (i + 1) * s by { Distribute(s, i, 1); }
    MulMonotone(i + 1, n, s);
    assert n * b + n * s == n * (b * base) by { Distribute(b, b, 1); Distribute(n, b, s); }
    MulMonotone(n, base, b * base);
    assert base * (b * base) < base * (base * base) by {
      Distribute(base, b, 1);
      assert base * base == b * base + base;
      Distribute(base, b * base, base);
      MulMonotone(1, base, base);
    }
  }

  lemma DwordBound(base: nat, a: nat, b: nat)
    requires base >= 1 && a < base && b < base
    ensures 0 <= a * b < base * base && 0 <= a * base <= a * base + b < base * base
  {
    MulMonotone(a, base, b);
    MulMonotone(b + 1, base, base);
    Distribute(base, b, 1);
    MulMonotone(a + 1, base, base);
    Distribute(base, a, 1);
  }

  lemma DwordOfAcc(base: nat, r0: nat, r1: nat, r2: nat)
    ensures Acc(base, r0, r1, r2) == (r1 * base + r0) + (base * base) * r2
  {
    Distribute(base, r1, base * r2);
    Associate(base, base, r2);
  }

  lemma TopWordFits(base: nat, low: nat, top: nat)
    requires low + (base * base) * top < base * (base * base)
    ensures top < base
  {
    if top >= base { MulMonotone(base, top, base * base); }
  }

  lemma DwordSplits(base: nat, x: nat)
    requires base > 0 && x < base * base
    ensures 0 <= x / base < base && 0 <= x % base < base && x == (x / base) * base + x % base
  {
    if x / base >= base { MulMonotone(base, x / base, base); }
  }

  method MulAdd(base: nat, a: nat, b: nat, r0: nat, r1: nat, r2: nat) returns (s0: nat, s1: nat, s2: nat)
    requires IsBase(base) && a < base && b < base && r0 < base && r1 < base && r2 < base
    requires Acc(base, r0, r1, r2) + a * b < base * (base * base)
    ensures s0 < base && s1 < base && s2 < base
    ensures Acc(base, s0, s1, s2) == Acc(base, r0, r1, r2) + a * b
  {
    hide Acc;
    var dword := base * base;
    var p := a * b;
    DwordBound(base, a, b);
    DwordBound(base, r1, r0);
    var r01 := (r1 * base + r0 + p) % dword;
    ReduceOnce(r1 * base + r0 + p, dword);
    var over := if r01 < p then 1 else 0;
    assert r1 * base + r0 + p == r01 + over * dword;
    DwordOfAcc(base, r0, r1, r2);
    Distribute(dword, r2, over);
    TopWordFits(base, r01, r2 + over);
    DivModUnique(r2 + over, base, 0, r2 + over);
    s2 := (r2 + over) % base;
    DwordSplits(base, r01);
    s1 := r01 / base;
    s0 := r01 % base;
    DwordOfAcc(base, s0, s1, s2);
  }

  lemma ColumnAlgebra(base: int, p: int, carried: int, column: int, r0: int, next: int)
    requires r0 + base * next == carried + column
    ensures p * r0 + (base * p) * next == p * carried + p * column
  {
    Associate(base, p, next);
    Associate(p, base, next);
    Distribute(p, r0, base * next);
    Distribute(p, carried, column);
  }

  /** The carry between columns stays below n words' worth. */
  lemma CarryBound(base: nat, n: nat, carried: nat, column: nat, r0: nat, next: nat)
    requires base >= 1 && r0 + base * next == carried + column
    requires carried <= n * (base - 1) && column <= n * ((base - 1) * (base - 1))
    ensures next <= n * (base - 1)
  {
    var b := base - 1;
    var most := n * b;
    assert column <= most * b by { Associate(n, b, b); }
    assert carried + column <= most * base by { Distribute(most, b, 1); }
    if next > most {
      MulMonotone(most + 1, next, base);
      Distribute(base, most, 1);
    }
  }

  /** The columns written so far, and the carry into the next one (r2 is 0 between columns). */
  ghost predicate ColumnsWritten(base: nat, l: seq<nat>, r: seq<nat>, done: seq<nat>, r0: nat, r1: nat) {
    && base >= 1
    && Val(base, done) + Pow(base, |done|) * Acc(base, r0, r1, 0) == Columns(base, l, r, |done|, |l|)
    && Acc(base, r0, r1, 0) <= |l| * (base - 1)
  }

  lemma NothingWritten(base: nat, l: seq<nat>, r: seq<nat>)
    requires base >= 1
    ensures ColumnsWritten(base, l, r, [], 0, 0)
  {
    assert Acc(base, 0, 0, 0) == 0;
  }

  /** A finished column: its low word goes out, the rest is carried into the next. */
  lemma ColumnDone(base: nat, l: seq<nat>, r: seq<nat>, done: seq<nat>, carried: nat, r0: nat, r1: nat, r2: nat)
    requires IsBase(base) && AreWords(base, l) && AreWords(base, r) && r0 < base
    requires Val(base, done) + Pow(base, |done|) * carried == Columns(base, l, r, |done|, |l|)
    requires Acc(base, r0, r1, r2) == carried + Column(l, r, |done|, |l|)
    requires carried <= |l| * (base - 1)
    ensures ColumnsWritten(base, l, r, done + [r0], r1, r2)
  {
    hide Val, Pow, Columns, Column;
    var k := |done|;
    var next := r1 + base * r2;
    assert Acc(base, r1, r2, 0) == next;
    ValAppend(base, done, r0);
    ColumnsStep(base, l, r, k, |l|);
    PowStep(base, k);
    ColumnAlgebra(base, Pow(base, k), carried, Column(l, r, k, |l|), r0, next);
    ColumnBound(base, l, r, k, |l|);
    CarryBound(base, |l|, carried, Column(l, r, k, |l|), r0, next);
  }

  /** The inner loop of both halves of uECC_vli_mult: rows lo..hi of column k. */
  method AddColumn(base: nat, left: array<nat>, right: array<nat>, n: nat, k: nat, lo: nat, hi: nat, r0: nat, r1: nat)
    returns (s0: nat, s1: nat, s2: nat)
    requires IsBase(base) && n <= base && r0 < base && r1 < base && Acc(base, r0, r1, 0) <= n * (base - 1)
    requires WordArray(base, left, n) && WordArray(base, right, n)
    requires lo <= hi <= n && hi <= k + 1 && k < lo + n
    ensures s0 < base && s1 < base && s2 < base
    ensures Acc(base, s0, s1, s2) + Column(left[..n], right[..n], k, lo)
            == Acc(base, r0, r1, 0) + Column(left[..n], right[..n], k, hi)
  {
    hide Val, Pow, Acc;
    ghost var l, r := left[..n], right[..n];
    ghost var carried := Acc(base, r0, r1, 0);
    s0, s1, s2 := r0, r1, 0;
    for i := lo to hi
      invariant s0 < base && s1 < base && s2 < base
      invariant Acc(base, s0, s1, s2) + Column(l, r, k, lo) == carried + Column(l, r, k, i)
    {
      ColumnBound(base, l, r, k, i);
      TermBound(base, l, r, k, i);
      RoomForTerm(base, n, i, carried, Column(l, r, k, i), Term(l, r, k, i));
      assert left[i] == l[i] && right[k - i] == r[k - i];
      s0, s1, s2 := MulAdd(base, left[i], right[k - i], s0, s1, s2);
    }
  }

  method Mult(base: nat, result: array<nat>, left: array<nat>, right: array<nat>, n: nat)
    requires IsBase(base) && 1 <= n <= base && 2 * n <= result.Length
    requires WordArray(base, left, n) && WordArray(base, right, n)
    requires result != left && result != right
    modifies result
    ensures WordArray(base, result, 2 * n)
    ensures Num(base, result, 2 * n) == Num(base, left, n) * Num(base, right, n)
    ensures result[2 * n..] == old(result[2 * n..])
  {
    hide Val, Pow, Columns, Column, Acc;
    ghost var l, r := left[..n], right[..n];
    var r0: nat, r1: nat, r2: nat := 0, 0, 0;
    NothingWritten(base, l, r);
    for k := 0 to n
      invariant r0 < base && r1 < base && AreWords(base, result[..k])
      invariant ColumnsWritten(base, l, r, result[..k], r0, r1)
      invariant result[2 * n..] == old(result[2 * n..])
    {
      ghost var done := result[..k];
      ghost var carried := Acc(base, r0, r1, 0);
      r0, r1, r2 := AddColumn(base, left, right, n, k, 0, k + 1, r0, r1);
      ColumnRange(l, r, k, k + 1, n);
      ColumnOfNoRows(l, r, k);
      ColumnDone(base, l, r, done, carried, r0, r1, r2);
      result[k] := r0;
      assert result[..k + 1] == done + [r0];
      r0, r1 := r1, r2;
    }
    for k := n to 2 * n - 1
      invariant r0 < base && r1 < base && AreWords(base, result[..k])
      invariant ColumnsWritten(base, l, r, result[..k], r0, r1)
      invariant result[2 * n..] == old(result[2 * n..])
    {
      ghost var done := result[..k];
      ghost var carried := Acc(base, r0, r1, 0);
      r0, r1, r2 := AddColumn(base, left, right, n, k, k + 1 - n, n, r0, r1);
      ColumnRange(l, r, k, 0, k + 1 - n);
      ColumnOfNoRows(l, r, k);
      ColumnDone(base, l, r, done, carried, r0, r1, r2);
      result[k] := r0;
      assert result[..k + 1] == done + [r0];
      r0, r1 := r1, r2;
    }
    ghost var done := result[..2 * n - 1];
    LastColumn(base, l, r, done, r0, r1);
    result[2 * n - 1] := r0;
    assert result[..2 * n] == done + [r0];
  }

  lemma ProductFits(x: nat, y: nat, p: nat)
    requires x < p && y < p
    ensures x * y < p * p
  {
    MulMonotone(x, p, y);
    MulMonotone(y + 1, p, p);
    Distribute(p, y, 1);
  }

  lemma QuotientFits(base: nat, p: nat, v: nat, acc: nat)
    requires v + p * acc < base * p
    ensures acc < base
  {
    if acc >= base { MulMonotone(base, acc, p); }
  }

  /** The last column is empty, and a product of n-word numbers has 2n words. */
  lemma AllColumns(base: nat, l: seq<nat>, r: seq<nat>)
    requires IsBase(base) && AreWords(base, l) && AreWords(base, r) && |l| == |r| > 0
    ensures Columns(base, l, r, 2 * |l| - 1, |l|) == Val(base, l) * Val(base, r) < base * Pow(base, 2 * |l| - 1)
  {
    hide Val, Columns, Column;
    var n := |l|;
    ColumnsAreProduct(base, l, r, 2 * n, n);
    ColumnRange(l, r, 2 * n - 1, 0, n);
    ColumnsStep(base, l, r, 2 * n - 1, n);
    ColumnOfNoRows(l, r, 2 * n - 1);
    assert l[..n] == l;
    ValBound(base, l);
    ValBound(base, r);
    ProductFits(Val(base, l), Val(base, r), Pow(base, n));
    PowAdd(base, n, n);
  }

  lemma AccIsLowWord(base: nat, r0: nat, r1: nat)
    requires base > 0 && Acc(base, r0, r1, 0) < base
    ensures Acc(base, r0, r1, 0) == r0
  {
    if r1 > 0 { MulMonotone(1, r1, base); }
  }

  lemma LastColumn(base: nat, l: seq<nat>, r: seq<nat>, done: seq<nat>, r0: nat, r1: nat)
    requires IsBase(base) && AreWords(base, l) && AreWords(base, r) && r0 < base
    requires |l| == |r| > 0 && |done| == 2 * |l| - 1
    requires ColumnsWritten(base, l, r, done, r0, r1)
    ensures Val(base, done + [r0]) == Val(base, l) * Val(base, r)
  {
    hide Val, Columns, Column, Acc;
    AllColumns(base, l, r);
    QuotientFits(base, Pow(base, |done|), Val(base, done), Acc(base, r0, r1, 0));
    AccIsLowWord(base, r0, r1);
    ValAppend(base, done, r0);
  }
}
