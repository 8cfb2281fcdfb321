/**
 The word loops of src/lib/uECC.c: add, subtract, compare and shift on arrays of words,
 each with the exact integer it computes.  Arrays may be the same object, as the C
 functions allow, so every contract speaks of the values on entry.
 */
module Vli {
  import opened Words

  /** The first n words of an array, as a number. */
  ghost function Num(base: nat, a: array<nat>, n: nat): nat
    requires n <= a.Length
    reads a
  {
    Val(base, a[..n])
  }

  ghost predicate WordArray(base: nat, a: array<nat>, n: nat)
    reads a
  {
    n <= a.Length && AreWords(base, a[..n])
  }

  method Clear(vli: array<nat>, n: nat)
    requires n <= vli.Length
    modifies vli
    ensures forall i :: 0 <= i < n ==> vli[i] == 0
    ensures vli[n..] == old(vli[n..])
  {
    for i := 0 to n
      invariant forall j :: 0 <= j < i ==> vli[j] == 0
      invariant vli[n..] == old(vli[n..])
    {
      vli[i] := 0;
    }
  }

  method Set(dest: array<nat>, src: array<nat>, n: nat)
    requires n <= dest.Length && n <= src.Length
    modifies dest
    ensures dest[..n] == old(src[..n])
    ensures dest[n..] == old(dest[n..])
  {
    for i := 0 to n
      invariant forall j :: 0 <= j < i ==> dest[j] == old(src[j])
      invariant forall j :: i <= j < n ==> src[j] == old(src[j])
      invariant dest[n..] == old(dest[n..])
    {
      dest[i] := src[i];
    }
  }

  method IsZero(base: nat, vli: array<nat>, n: nat) returns (zero: bool)
    requires base > 0 && n <= vli.Length
    ensures zero <==> Num(base, vli, n) == 0
  {
    hide Val, Pow;
    ValZeros(base, vli[..n]);
    zero := true;
    for i := 0 to n
      invariant zero <==> forall j :: 0 <= j < i ==> vli[j] == 0
    {
      if vli[i] != 0 { zero := false; }
    }
    assert forall j :: 0 <= j < n ==> vli[j] == vli[..n][j];
  }

  /** The sign of left - right, decided at the highest word that differs. */
  method Cmp(base: nat, left: array<nat>, right: array<nat>, n: nat) returns (sign: int)
    requires WordArray(base, left, n) && WordArray(base, right, n)
    ensures -1 <= sign <= 1
    ensures sign == 0 <==> left[..n] == right[..n]
    ensures sign > 0 <==> Num(base, left, n) > Num(base, right, n)
    ensures sign < 0 <==> Num(base, left, n) < Num(base, right, n)
  {
    hide Val, Pow;
    ghost var l, r := left[..n], right[..n];
    var i := n;
    while i > 0
      invariant 0 <= i <= n
      invariant l[i..] == r[i..]
    {
      i := i - 1;
      if left[i] > right[i] {
        ValCompare(base, r, l, i);
        return 1;
      } else if left[i] < right[i] {
        ValCompare(base, l, r, i);
        return -1;
      }
      assert l[i..] == [l[i]] + l[i + 1..] && r[i..] == [r[i]] + r[i + 1..];
    }
    assert l == l[0..] && r == r[0..];
    sign := 0;
  }

  // ----- addition and subtraction -----

  /** The carry test of the C loop: when the sum equals the left word the carry stays as it is. */
  lemma CarryOut(base: nat, l: nat, r: nat, c: nat)
    requires base >= 2 && l < base && r < base && c <= 1
    ensures var sum := (l + r + c) % base;
            var c' := if sum != l then (if sum < l then 1 else 0) else c;
            sum + c' * base == l + r + c
  {
    ReduceOnce(l + r + c, base);
  }

  lemma AddStep(base: nat, p: nat, z: nat, x: nat, y: nat, c: nat, sum: nat, l: nat, r: nat, c': nat)
    requires z + c * p == x + y && sum + c' * base == l + r + c
    ensures (z + p * sum) + c' * (base * p) == (x + p * l) + (y + p * r)
  {
    calc {
      (z + p * sum) + c' * (base * p);
      { Associate(c', base, p); }
      z + p * sum + p * (c' * base);
      { Distribute(p, sum, c' * base); }
      z + p * (l + r + c);
      { Distribute(p, l + r, c); Distribute(p, l, r); }
      (x + p * l) + (y + p * r);
    }
  }

  /** One more word of a sum. */
  lemma AddWord(base: nat, l: seq<nat>, r: seq<nat>, done: seq<nat>, c: nat, sum: nat, c': nat)
    requires |done| < |l| == |r|
    requires Val(base, done) + c * Pow(base, |done|) == Val(base, l[..|done|]) + Val(base, r[..|done|])
    requires sum + c' * base == l[|done|] + r[|done|] + c
    ensures var i := |done|;
            Val(base, done + [sum]) + c' * Pow(base, i + 1) == Val(base, l[..i + 1]) + Val(base, r[..i + 1])
  {
    hide Val, Pow;
    var i := |done|;
    ValSnoc(base, l, i);
    ValSnoc(base, r, i);
    PowStep(base, i);
    ValAppend(base, done, sum);
    AddStep(base, Pow(base, i), Val(base, done), Val(base, l[..i]), Val(base, r[..i]), c, sum, l[i], r[i], c');
  }

  method Add(base: nat, result: array<nat>, left: array<nat>, right: array<nat>, n: nat) returns (carry: nat)
    requires IsBase(base) && n <= result.Length
    requires WordArray(base, left, n) && WordArray(base, right, n)
    modifies result
    ensures WordArray(base, result, n) && carry <= 1
    ensures Num(base, result, n) + carry * Pow(base, n) == old(Num(base, left, n)) + old(Num(base, right, n))
    ensures result[n..] == old(result[n..])
  {
    hide Val, Pow;
    ghost var l, r := left[..n], right[..n];
    carry := 0;
    ValEmpty(base);
    for i := 0 to n
      invariant carry <= 1
      invariant forall j :: i <= j < n ==> left[j] == l[j] && right[j] == r[j]
      invariant AreWords(base, result[..i])
      invariant Val(base, result[..i]) + carry * Pow(base, i) == Val(base, l[..i]) + Val(base, r[..i])
      invariant result[n..] == old(result[n..])
    {
      var sum := (left[i] + right[i] + carry) % base;
      CarryOut(base, l[i], r[i], carry);
      ghost var c := carry;
      ghost var done := result[..i];
      if sum != left[i] {
        carry := if sum < left[i] then 1 else 0;
      }
      result[i] := sum;
      AddWord(base, l, r, done, c, sum, carry);
      assert result[..i + 1] == done + [sum];
    }
    assert l[..n] == l && r[..n] == r;
  }

  lemma BorrowOut(base: nat, l: nat, r: nat, b: nat)
    requires base >= 2 && l < base && r < base && b <= 1
    ensures var diff := (l - r - b) % base;
            var b' := if diff != l then (if diff > l then 1 else 0) else b;
            diff + r + b == l + b' * base
  {
    if l >= r + b {
      DivModUnique(l - r - b, base, 0, l - r - b);
    } else {
      DivModUnique(l - r - b, base, -1, base + l - r - b);
    }
  }

  /** One more word of a difference. */
  lemma SubWord(base: nat, l: seq<nat>, r: seq<nat>, done: seq<nat>, b: nat, diff: nat, b': nat)
    requires |done| < |l| == |r|
    requires Val(base, l[..|done|]) + b * Pow(base, |done|) == Val(base, done) + Val(base, r[..|done|])
    requires diff + r[|done|] + b == l[|done|] + b' * base
    ensures var i := |done|;
            Val(base, l[..i + 1]) + b' * Pow(base, i + 1) == Val(base, done + [diff]) + Val(base, r[..i + 1])
  {
    hide Val, Pow;
    var i := |done|;
    ValSnoc(base, l, i);
    ValSnoc(base, r, i);
    PowStep(base, i);
    ValAppend(base, done, diff);
    SubStep(base, Pow(base, i), Val(base, done), Val(base, l[..i]), Val(base, r[..i]), b, diff, l[i], r[i], b');
  }

  method Sub(base: nat, result: array<nat>, left: array<nat>, right: array<nat>, n: nat) returns (borrow: nat)
    requires IsBase(base) && n <= result.Length
    requires WordArray(base, left, n) && WordArray(base, right, n)
    modifies result
    ensures WordArray(base, result, n) && borrow <= 1
    ensures Num(base, result, n) + old(Num(base, right, n)) == old(Num(base, left, n)) + borrow * Pow(base, n)
    ensures result[n..] == old(result[n..])
  {
    hide Val, Pow;
    ghost var l, r := left[..n], right[..n];
    borrow := 0;
    ValEmpty(base);
    for i := 0 to n
      invariant borrow <= 1
      invariant forall j :: i <= j < n ==> left[j] == l[j] && right[j] == r[j]
      invariant AreWords(base, result[..i])
      invariant Val(base, l[..i]) + borrow * Pow(base, i) == Val(base, result[..i]) + Val(base, r[..i])
      invariant result[n..] == old(result[n..])
    {
      var diff := (left[i] - right[i] - borrow) % base;
      BorrowOut(base, l[i], r[i], borrow);
      ghost var b := borrow;
      ghost var done := result[..i];
      if diff != left[i] {
        borrow := if diff > left[i] then 1 else 0;
      }
      result[i] := diff;
      SubWord(base, l, r, done, b, diff, borrow);
      assert result[..i + 1] == done + [diff];
    }
    assert l[..n] == l && r[..n] == r;
  }

  lemma SubStep(base: nat, p: nat, z: nat, x: nat, y: nat, b: nat, diff: nat, l: nat, r: nat, b': nat)
    requires x + b * p == z + y && diff + r + b == l + b' * base
    ensures (x + p * l) + b' * (base * p) == (z + p * diff) + (y + p * r)
  {
    calc {
      (x + p * l) + b' * (base * p);
      { Associate(b', base, p); }
      x + p * l + p * (b' * base);
      { Distribute(p, l, b' * base); }
      x + p * (diff + r + b);
      { Distribute(p, diff + r, b); Distribute(p, diff, r); }
      (z + p * diff) + (y + p * r);
    }
  }

  // ----- halving -----

  /** The bit that falls off a word, moved to the top of the word below. */
  function BitDown(base: nat, bit: nat): nat {
    if bit == 1 then base / 2 else 0
  }

  /** One word of the shift: the bit falling off the word above comes in at the top. */
  lemma HalfWord(base: nat, v: seq<nat>, i: nat, high: seq<nat>, c: nat)
    requires IsBase(base) && i < |v| && v[i] < base && c <= 1
    requires 2 * Val(base, high) + c == Val(base, v[i + 1..])
    ensures v[i] / 2 + BitDown(base, c) < base
    ensures 2 * Val(base, [v[i] / 2 + BitDown(base, c)] + high) + v[i] % 2 == Val(base, v[i..])
  {
    hide Val, Pow;
    var h := Val(base, high);
    var w := v[i] / 2 + BitDown(base, c);
    ValCons(base, w, high);
    ValCons(base, v[i], v[i + 1..]);
    assert v[i..] == [v[i]] + v[i + 1..];
    assert Val(base, v[i..]) == v[i] + base * (2 * h + c);
    assert base * (2 * h + c) == 2 * (base * h) + base * c by {
      Distribute(base, 2 * h, c);
      Associate(2, h, base);
    }
    if c == 0 { } else { assert base * c == base; }
  }

  lemma NoWords(base: nat)
    ensures AreWords(base, [])
  {
  }

  lemma WordAt(base: nat, s: seq<nat>, i: nat)
    requires AreWords(base, s) && i < |s|
    ensures s[i] < base
  {
  }

  lemma WordBefore(base: nat, w: nat, s: seq<nat>)
    requires AreWords(base, s) && w < base
    ensures AreWords(base, [w] + s)
  {
  }

  /** Halves the n words starting at off. */
  method Rshift1(base: nat, vli: array<nat>, off: nat, n: nat)
    requires IsBase(base) && off + n <= vli.Length && AreWords(base, vli[off..off + n])
    modifies vli
    ensures AreWords(base, vli[off..off + n])
    ensures Val(base, vli[off..off + n]) == old(Val(base, vli[off..off + n])) / 2
    ensures vli[..off] == old(vli[..off]) && vli[off + n..] == old(vli[off + n..])
  {
    hide Val, Pow, AreWords;
    ghost var v := vli[off..off + n];
    var carry: nat := 0;
    ghost var c: nat := 0;
    var i := n;
    ValEmpty(base);
    NoWords(base);
    assert vli[off + n..off + n] == [] && v[n..] == [];
    while i > 0
      invariant 0 <= i <= n
      invariant c <= 1 && carry == BitDown(base, c)
      invariant vli[off..off + i] == v[..i]
      invariant AreWords(base, vli[off + i..off + n])
      invariant 2 * Val(base, vli[off + i..off + n]) + c == Val(base, v[i..])
      invariant vli[..off] == old(vli[..off]) && vli[off + n..] == old(vli[off + n..])
    {
      i := i - 1;
      var temp := vli[off + i];
      assert temp == vli[off..off + i + 1][i];
      ghost var high := vli[off + i + 1..off + n];
      WordAt(base, v, i);
      HalfWord(base, v, i, high, c);
      WordBefore(base, temp / 2 + carry, high);
      vli[off + i] := temp / 2 + carry;
      assert vli[off + i..off + n] == [temp / 2 + carry] + high;
      carry := BitDown(base, temp % 2);
      c := temp % 2;
    }
    assert v[0..] == v;
  }
}
