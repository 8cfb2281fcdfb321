/**
 Remainder by shift and subtract (uECC_vli_mmod) and modular multiplication on top of it
 (uECC_vli_modMult).  Words have w bits, so base is 2^w.
 */
module Remainder {
  import opened Words
  import opened Vli
  import opened Product

  predicate IsWordSize(base: nat, w: nat) {
    w >= 1 && base == Pow(2, w)
  }

  lemma WordSizeIsBase(base: nat, w: nat)
    requires IsWordSize(base, w)
    ensures IsBase(base)
  {
    PowPositive(2, w - 1);
    assert base == 2 * Pow(2, w - 1);
  }

  // ----- bit length -----

  method NumDigits(vli: array<nat>, n: nat) returns (d: nat)
    requires n <= vli.Length
    ensures d <= n
    ensures forall i :: d <= i < n ==> vli[i] == 0
    ensures d > 0 ==> vli[d - 1] != 0
  {
    d := n;
    while d > 0 && vli[d - 1] == 0
      invariant d <= n
      invariant forall i :: d <= i < n ==> vli[i] == 0
    {
      d := d - 1;
    }
  }

  /** x needs exactly `bits` bits. */
  predicate BitLength(x: nat, bits: nat) {
    x < Pow(2, bits) && (bits > 0 ==> Pow(2, bits - 1) <= x)
  }

  function BitsIn(x: nat): nat {
    if x == 0 then 0 else 1 + BitsIn(x / 2)
  }

  lemma {:induction false} BitsInIsLength(x: nat)
    ensures BitLength(x, BitsIn(x))
  {
    if x > 0 {
      BitsInIsLength(x / 2);
      if x == 1 { assert BitsIn(0) == 0; }
    }
  }

  method DigitBits(digit: nat) returns (bits: nat)
    ensures BitLength(digit, bits)
  {
    bits := 0;
    var rest := digit;
    while rest != 0
      invariant bits + BitsIn(rest) == BitsIn(digit)
    {
      rest := rest / 2;
      bits := bits + 1;
    }
    BitsInIsLength(digit);
  }

  /** The bit length of a number is that of its highest word, plus w for each word below. */
  lemma BitsOfNumber(base: nat, w: nat, s: seq<nat>, top: nat)
    requires IsWordSize(base, w) && s != [] && AreWords(base, s) && s[|s| - 1] != 0 && BitLength(s[|s| - 1], top)
    ensures 0 < top <= w && BitLength(Val(base, s), w * (|s| - 1) + top)
  {
    hide Val, Pow;
    var m := |s| - 1;
    var d, p := s[m], Pow(base, m);
    ValTopWord(base, s);
    PowOfPow(2, w, m);
    PowAdd(2, top, w * m);
    MulMonotone(d + 1, Pow(2, top), p);
    assert top > 0;
    PowAdd(2, top - 1, w * m);
    MulMonotone(Pow(2, top - 1), d, p);
    if top > w { PowMonotone(2, w, top - 1); }
  }

  method NumBits(base: nat, w: nat, vli: array<nat>, n: nat) returns (bits: nat)
    requires IsWordSize(base, w) && WordArray(base, vli, n)
    ensures BitLength(Num(base, vli, n), bits)
    ensures n > 0 && vli[n - 1] != 0 ==> w * (n - 1) < bits <= w * n
  {
    hide Val, Pow;
    var d := NumDigits(vli, n);
    WordSizeIsBase(base, w);
    if d == 0 {
      ValZeros(base, vli[..n]);
      ValEmpty(2);
      return 0;
    }
    var top := DigitBits(vli[d - 1]);
    BitsOfNumber(base, w, vli[..d], top);
    bits := w * (d - 1) + top;
    ValSplit(base, vli[..n], d);
    assert vli[..n][..d] == vli[..d];
    ValZeros(base, vli[..n][d..]);
    if n > 0 && vli[n - 1] != 0 {
      assert d == n;
      Distribute(w, n - 1, 1);
    }
  }

  // ----- aligning the modulus -----

  /** Shifting a word left by `s`: the low part stays, the high part is the carry. */
  lemma ShiftedWord(base: nat, s: nat, t: nat, x: nat, carry: nat)
    requires s * t == base && s > 0 && t > 0 && x < base && carry < s
    ensures x / t < s && 0 <= x * s
    ensures ((x * s) % base + carry) < base
    ensures ((x * s) % base + carry) + base * (x / t) == x * s + carry
  {
    var q, r := x / t, x % t;
    assert x == q * t + r;
    if q >= s { MulMonotone(s, q, t); }
    assert x * s == q * base + r * s by { Distribute(s, q * t, r); Associate(q, t, s); }
    assert r * s + s <= base by { MulMonotone(r + 1, t, s); Distribute(s, r, 1); }
    DivModUnique(x * s, base, q, r * s);
  }

  /** mod * s written to dest[off..off+n]; nothing may fall off the top. */
  method ShiftInto(base: nat, s: nat, t: nat, dest: array<nat>, off: nat, mod: array<nat>, n: nat)
    requires IsBase(base) && s * t == base && s > 0 && t > 0
    requires WordArray(base, mod, n) && off + n <= dest.Length && dest != mod
    requires Num(base, mod, n) * s < Pow(base, n)
    modifies dest
    ensures AreWords(base, dest[off..off + n])
    ensures Val(base, dest[off..off + n]) == Num(base, mod, n) * s
    ensures dest[..off] == old(dest[..off])
  {
    hide Val, Pow;
    ghost var m := mod[..n];
    var carry: nat := 0;
    ValEmpty(base);
    for index := 0 to n
      invariant carry < s
      invariant dest[..off] == old(dest[..off])
      invariant AreWords(base, dest[off..off + index])
      invariant Val(base, dest[off..off + index]) + carry * Pow(base, index) == Val(base, m[..index]) * s
    {
      ghost var done, c := dest[off..off + index], carry;
      assert mod[index] == m[index];
      ShiftedWord(base, s, t, m[index], carry);
      dest[off + index] := (mod[index] * s) % base + carry;
      carry := mod[index] / t;
      assert dest[off..off + index + 1] == done + [dest[off + index]];
      ShiftStep(base, s, m, done, c, dest[off + index], carry);
    }
    assert m[..n] == m;
    if carry > 0 { MulMonotone(1, carry, Pow(base, n)); }
  }

  lemma ShiftStep(base: nat, s: nat, m: seq<nat>, done: seq<nat>, c: nat, word: nat, c': nat)
    requires |done| < |m|
    requires Val(base, done) + c * Pow(base, |done|) == Val(base, m[..|done|]) * s
    requires word + base * c' == m[|done|] * s + c
    ensures Val(base, done + [word]) + c' * Pow(base, |done| + 1) == Val(base, m[..|done| + 1]) * s
  {
    hide Val, Pow;
    var i, p := |done|, Pow(base, |done|);
    ValAppend(base, done, word);
    ValSnoc(base, m, i);
    PowStep(base, i);
    ShiftAlgebra(base, p, s, m[i], c, word, c');
    Distribute(s, Val(base, m[..i]), p * m[i]);
  }

  lemma ShiftAlgebra(base: int, p: int, s: int, x: int, c: int, word: int, c': int)
    requires word + base * c' == x * s + c
    ensures p * word + c' * (base * p) == (p * x) * s + c * p
  {
    Associate(base, c', p);
    Distribute(p, word, base * c');
    Distribute(p, x * s, c);
    Associate(p, x, s);
  }

  // ----- halving across two arrays' worth of words -----

  lemma HalveParts(base: nat, p: nat, lo: nat, hi: nat)
    requires IsBase(base)
    ensures (lo + (base * p) * hi) / 2 == (lo / 2 + p * BitDown(base, hi % 2)) + (base * p) * (hi / 2)
  {
    var h, k := base / 2, hi / 2;
    var b := hi % 2;
    assert base * p == 2 * (h * p) by { Associate(2, h, p); }
    assert (base * p) * hi == 2 * ((base * p) * k) + (base * p) * b by {
      Distribute(base * p, 2 * k, b);
      Associate(2, k, base * p);
    }
    assert (base * p) * b == 2 * (p * BitDown(base, b)) by {
      if b == 0 { } else { assert (base * p) * b == base * p; assert p * h == h * p; }
    }
  }

  /** The low half after the bit between the halves has been added at its top. */
  lemma LowHalf(base: nat, lo: seq<nat>, half: seq<nat>, low: seq<nat>, bits: nat)
    requires IsBase(base) && |lo| == |half| == |low| > 0 && AreWords(base, lo) && AreWords(base, half)
    requires Val(base, half) == Val(base, lo) / 2 && bits <= base / 2
    requires low == half[..|lo| - 1] + [half[|lo| - 1] + bits]
    ensures AreWords(base, low) && Val(base, low) == Val(base, lo) / 2 + Pow(base, |lo| - 1) * bits
  {
    hide Val, Pow;
    TopBitClear(base, lo, half);
    TopWordGains(base, half, bits);
  }

  lemma HalvesValue(base: nat, s: seq<nat>, n: nat, low: seq<nat>, high: seq<nat>, bits: nat)
    requires IsBase(base) && n >= 1 && |s| == 2 * n && |low| == |high| == n && bits == BitDown(base, s[n] % 2)
    requires Val(base, low) == Val(base, s[..n]) / 2 + Pow(base, n - 1) * bits
    requires Val(base, high) == Val(base, s[n..]) / 2
    ensures Val(base, low + high) == Val(base, s) / 2
  {
    hide Val, Pow;
    ValSplit(base, s, n);
    ValSplit(base, low + high, n);
    assert (low + high)[..n] == low && (low + high)[n..] == high;
    ValParity(base, s[n..]);
    PowStep(base, n - 1);
    HalveParts(base, Pow(base, n - 1), Val(base, s[..n]), Val(base, s[n..]));
  }

  /** mod_multiple >>= 1: the two halves are shifted separately and the bit between them is moved by hand. */
  method HalveDouble(base: nat, mm: array<nat>, n: nat)
    requires IsBase(base) && n >= 1 && WordArray(base, mm, 2 * n) && mm.Length == 2 * n
    modifies mm
    ensures WordArray(base, mm, 2 * n)
    ensures Num(base, mm, 2 * n) == old(Num(base, mm, 2 * n)) / 2
  {
    hide Val, Pow;
    ghost var s := mm[..2 * n];
    assert mm[0..n] == s[..n] && mm[n..2 * n] == s[n..];
    Rshift1(base, mm, 0, n);
    ghost var half := mm[0..n];
    assert mm[n..2 * n] == s[n..] && mm[n] == s[n];
    mm[n - 1] := mm[n - 1] + BitDown(base, mm[n] % 2);
    ghost var low := mm[..n];
    assert low == half[..n - 1] + [half[n - 1] + BitDown(base, s[n] % 2)];
    assert mm[n..2 * n] == s[n..];
    Rshift1(base, mm, n, n);
    LowHalf(base, s[..n], half, low, BitDown(base, s[n] % 2));
    HalvesValue(base, s, n, low, mm[n..2 * n], BitDown(base, s[n] % 2));
    assert mm[..2 * n] == low + mm[n..2 * n];
  }

  lemma TopBitClear(base: nat, lo: seq<nat>, half: seq<nat>)
    requires IsBase(base) && |lo| == |half| > 0 && AreWords(base, lo) && AreWords(base, half)
    requires Val(base, half) == Val(base, lo) / 2
    ensures half[|half| - 1] < base / 2
  {
    hide Val, Pow;
    var n := |lo| - 1;
    var p := Pow(base, n);
    PowStep(base, n);
    ValBound(base, lo);
    ValTopWord(base, half);
    if half[n] >= base / 2 {
      MulMonotone(base / 2, half[n], p);
      Associate(2, base / 2, p);
    }
  }

  lemma TopWordGains(base: nat, s: seq<nat>, bits: nat)
    requires s != []
    ensures var n := |s| - 1;
            Val(base, s[..n] + [s[n] + bits]) == Val(base, s) + Pow(base, n) * bits
  {
    hide Val, Pow;
    var n := |s| - 1;
    ValAppend(base, s[..n], s[n] + bits);
    ValSnoc(base, s, n);
    assert s[..n + 1] == s;
    Distribute(Pow(base, n), s[n], bits);
  }

  // ----- remainder -----

  lemma ShiftSplits(w: nat, n: nat, bits: nat)
    requires w >= 1 && n >= 1 && w * (n - 1) < bits <= w * n
    ensures var shift := w * (2 * n) - bits;
            shift >= 0 && shift / w == n && shift % w == w * n - bits && shift == w * n + (w * n - bits)
  {
    assert w * (2 * n) == w * n + w * n by { Distribute(w, n, n); }
    assert w * n == w * (n - 1) + w by { Distribute(w, n - 1, 1); }
    DivModUnique(w * (2 * n) - bits, w, n, w * n - bits);
  }

  lemma AlignedModulusFits(base: nat, w: nat, n: nat, bits: nat, m: nat)
    requires IsWordSize(base, w) && BitLength(m, bits) && bits <= w * n
    ensures m * Pow(2, w * n - bits) < Pow(base, n)
  {
    hide Val, Pow;
    var b := w * n - bits;
    PowOfPow(2, w, n);
    PowAdd(2, bits, b);
    PowPositive(2, b);
    MulMonotone(m + 1, Pow(2, bits), Pow(2, b));
    Distribute(Pow(2, b), m, 1);
  }

  /** Shifted to the top, the modulus is more than half of any double-length number. */
  lemma AlignedModulusIsLarge(base: nat, w: nat, n: nat, bits: nat, m: nat)
    requires IsWordSize(base, w) && BitLength(m, bits) && 0 < bits <= w * (2 * n)
    ensures Pow(base, 2 * n) <= m * Pow(2, w * (2 * n) - bits + 1)
  {
    hide Val, Pow;
    var up := w * (2 * n) - bits + 1;
    PowOfPow(2, w, 2 * n);
    PowAdd(2, bits - 1, up);
    MulMonotone(Pow(2, bits - 1), m, Pow(2, up));
  }

  lemma AlignedValue(base: nat, w: nat, n: nat, b: nat, m: nat)
    requires IsWordSize(base, w)
    ensures Pow(base, n) * (m * Pow(2, b)) == m * Pow(2, w * n + b)
  {
    hide Val, Pow;
    PowOfPow(2, w, n);
    PowAdd(2, w * n, b);
    Associate(m, Pow(2, b), Pow(base, n));
    Associate(m, Pow(base, n), Pow(2, b));
  }

  /** mod shifted so that its highest bit is at the top of a double-length number. */
  method Align(base: nat, w: nat, mod: array<nat>, n: nat) returns (multiple: array<nat>, shift: nat)
    requires IsWordSize(base, w) && n >= 1 && WordArray(base, mod, n) && mod[n - 1] != 0
    ensures fresh(multiple) && multiple.Length == 2 * n && WordArray(base, multiple, 2 * n)
    ensures 0 < Num(base, mod, n) < Pow(base, n)
    ensures Num(base, multiple, 2 * n) == Num(base, mod, n) * Pow(2, shift)
    ensures Pow(base, 2 * n) <= Num(base, mod, n) * Pow(2, shift + 1)
  {
    hide Val, Pow;
    WordSizeIsBase(base, w);
    ghost var m := Num(base, mod, n);
    ValBound(base, mod[..n]);
    ValZeros(base, mod[..n]);
    assert mod[..n][n - 1] != 0;
    multiple := new nat[2 * n];
    var bits := NumBits(base, w, mod, n);
    ShiftSplits(w, n, bits);
    AlignedModulusFits(base, w, n, bits, m);
    AlignedModulusIsLarge(base, w, n, bits, m);
    shift := w * (2 * n) - bits;
    var wordShift, bitShift := shift / w, shift % w;
    Clear(multiple, wordShift);
    PowAdd(2, bitShift, w - bitShift);
    PowPositive(2, bitShift);
    PowPositive(2, w - bitShift);
    ShiftInto(base, Pow(2, bitShift), Pow(2, w - bitShift), multiple, wordShift, mod, n);
    ghost var aligned := multiple[..2 * n];
    assert aligned[n..] == multiple[n..n + n];
    assert forall i :: 0 <= i < n ==> aligned[i] == multiple[..n][i];
    Aligned(base, aligned, n);
    AlignedValue(base, w, n, bitShift, m);
  }

  /** v is what is left of `total` after taking q times m away, and is below m * 2^k. */
  predicate Reducing(v: nat, m: nat, k: nat, q: nat, total: nat) {
    v < m * Pow(2, k) && v + q * m == total
  }

  /** One trial subtraction of m * 2^(k-1), kept when there is no borrow. */
  lemma ReduceStep(v: nat, m: nat, k: nat, q: nat, total: nat, diff: nat, borrow: nat, limit: nat)
    requires k > 0 && Reducing(v, m, k, q, total) && borrow <= 1
    requires diff + m * Pow(2, k - 1) == v + borrow * limit && diff < limit
    ensures borrow == 0 ==> Reducing(diff, m, k - 1, q + Pow(2, k - 1), total)
    ensures borrow == 1 ==> Reducing(v, m, k - 1, q, total)
  {
    HalvedRoom(m, k);
    Distribute(m, q, Pow(2, k - 1));
  }

  method Mmod(base: nat, w: nat, result: array<nat>, product: array<nat>, mod: array<nat>, n: nat)
    requires IsWordSize(base, w) && n >= 1 && n <= result.Length
    requires WordArray(base, product, 2 * n) && WordArray(base, mod, n) && mod[n - 1] != 0
    modifies result, product
    ensures WordArray(base, result, n)
    ensures old(Num(base, mod, n)) > 0
    ensures Num(base, result, n) == old(Num(base, product, 2 * n)) % old(Num(base, mod, n))
  {
    hide Val, Pow;
    WordSizeIsBase(base, w);
    ghost var m, total := Num(base, mod, n), Num(base, product, 2 * n);
    var tmp := new nat[2 * n];
    var multiple, shift := Align(base, w, mod, n);
    var v := [tmp, product];
    var index := 1;
    ghost var q: nat := 0;
    ValBound(base, product[..2 * n]);
    var k: nat := shift + 1;
    while k > 0
      invariant index == 0 || index == 1
      invariant WordArray(base, v[index], 2 * n) && WordArray(base, multiple, 2 * n)
      invariant Reducing(Num(base, v[index], 2 * n), m, k, q, total)
      invariant k > 0 ==> Num(base, multiple, 2 * n) == m * Pow(2, k - 1)
    {
      ghost var x := v[index][..2 * n];
      var borrow := Sub(base, v[1 - index], v[index], multiple, 2 * n);
      assert v[index][..2 * n] == x;
      ValBound(base, v[1 - index][..2 * n]);
      ReduceStep(Val(base, x), m, k, q, total, Num(base, v[1 - index], 2 * n), borrow, Pow(base, 2 * n));
      if borrow == 0 {
        index := 1 - index;
        q := q + Pow(2, k - 1);
      }
      ghost var now := v[index][..2 * n];
      HalvedRoom(m, k);
      HalveDouble(base, multiple, n);
      assert v[index][..2 * n] == now;
      k := k - 1;
    }
    ValEmpty(2);
    ghost var final := v[index][..2 * n];
    RemainderFits(base, final, n, m, total, q);
    Set(result, v[index], n);
    assert final[..n] == result[..n];
  }

  lemma HalvedRoom(m: nat, k: nat)
    requires k > 0
    ensures m * Pow(2, k) == 2 * (m * Pow(2, k - 1))
    ensures k > 1 ==> (m * Pow(2, k - 1)) / 2 == m * Pow(2, k - 2)
  {
    Associate(2, m, Pow(2, k - 1));
    if k > 1 { Associate(2, m, Pow(2, k - 2)); }
  }

  lemma Aligned(base: nat, s: seq<nat>, n: nat)
    requires base > 0 && |s| == 2 * n && (forall i :: 0 <= i < n ==> s[i] == 0) && AreWords(base, s[n..])
    ensures AreWords(base, s) && Val(base, s) == Pow(base, n) * Val(base, s[n..])
  {
    hide Val, Pow;
    ValSplit(base, s, n);
    ValZeros(base, s[..n]);
    assert forall i :: n <= i < 2 * n ==> s[i] == s[n..][i - n];
  }

  /** A remainder is below the modulus, so its upper words are zero. */
  lemma RemainderFits(base: nat, s: seq<nat>, n: nat, m: nat, total: nat, q: nat)
    requires AreWords(base, s) && |s| == 2 * n && base > 0
    requires Val(base, s) < m <= Pow(base, n) && Val(base, s) + q * m == total
    ensures Val(base, s[..n]) == total % m
  {
    hide Val, Pow;
    DivModUnique(total, m, q, Val(base, s));
    ValSplit(base, s, n);
    if Val(base, s[n..]) > 0 { MulMonotone(1, Val(base, s[n..]), Pow(base, n)); }
  }

  method ModMult(base: nat, w: nat, result: array<nat>, left: array<nat>, right: array<nat>, mod: array<nat>, n: nat)
    requires IsWordSize(base, w) && 1 <= n <= base && n <= result.Length
    requires WordArray(base, left, n) && WordArray(base, right, n) && WordArray(base, mod, n) && mod[n - 1] != 0
    modifies result
    ensures WordArray(base, result, n)
    ensures old(Num(base, mod, n)) > 0
    ensures Num(base, result, n) == (old(Num(base, left, n)) * old(Num(base, right, n))) % old(Num(base, mod, n))
  {
    WordSizeIsBase(base, w);
    var product := new nat[2 * n];
    Mult(base, product, left, right, n);
    Mmod(base, w, result, product, mod, n);
  }
}
