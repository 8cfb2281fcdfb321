/** Bit strings, highest bit first: what the text codecs regroup. */
module Bits {
  import opened Words

  /** The k low bits of x. */
  function LowBits(x: nat, k: nat): (bs: seq<bool>)
    ensures |bs| == k
  {
    if k == 0 then [] else LowBits(x / 2, k - 1) + [x % 2 == 1]
  }

  function BitsValue(bs: seq<bool>): nat {
    if bs == [] then 0 else 2 * BitsValue(bs[..|bs| - 1]) + if bs[|bs| - 1] then 1 else 0
  }

  /** The bits of a sequence of k-bit digits. */
  function DigitBits(k: nat, ds: seq<nat>): (bs: seq<bool>)
    ensures |bs| == k * |ds|
  {
    if ds == [] then []
    else
      Distribute(k, |ds| - 1, 1);
      DigitBits(k, ds[..|ds| - 1]) + LowBits(ds[|ds| - 1], k)
  }

  predicate AreBytes(s: seq<nat>) {
    forall i :: 0 <= i < |s| ==> s[i] < 256
  }

  function ByteBits(s: seq<nat>): seq<bool> {
    DigitBits(8, s)
  }

  lemma {:induction false} LowBitsSplit(x: nat, k: nat, j: nat)
    ensures Pow(2, j) > 0 && LowBits(x, k + j) == LowBits(x / Pow(2, j), k) + LowBits(x, j)
    decreases j
  {
    PowPositive(2, j);
    if j == 0 {
      assert LowBits(x, k) + [] == LowBits(x, k);
    } else {
      LowBitsSplit(x / 2, k, j - 1);
      HalfThenShift(x, j);
      assert (LowBits(x / Pow(2, j), k) + LowBits(x / 2, j - 1)) + [x % 2 == 1]
          == LowBits(x / Pow(2, j), k) + (LowBits(x / 2, j - 1) + [x % 2 == 1]);
    }
  }

  lemma HalfThenShift(x: nat, j: nat)
    requires j > 0
    ensures Pow(2, j) > 0 && Pow(2, j - 1) > 0 && (x / 2) / Pow(2, j - 1) == x / Pow(2, j)
  {
    PowPositive(2, j);
    PowPositive(2, j - 1);
    var p, h := Pow(2, j - 1), x / 2;
    var q, r := h / p, h % p;
    assert h == q * p + r && x == 2 * h + x % 2;
    Associate(2, q, p);
    Associate(q, 2, p);
    assert x == q * (2 * p) + (2 * r + x % 2);
    DivModUnique(x, 2 * p, q, 2 * r + x % 2);
  }

  /** Only the low bits matter. */
  lemma {:induction false} LowBitsOfSum(x: nat, y: nat, m: nat, k: nat)
    requires k <= m
    ensures LowBits(x * Pow(2, m) + y, k) == LowBits(y, k)
    decreases k
  {
    if k > 0 {
      PowStep(2, m - 1);
      var p := Pow(2, m - 1);
      Associate(2, x, p);
      Associate(x, 2, p);
      assert x * Pow(2, m) == 2 * (x * p);
      var z := x * Pow(2, m) + y;
      assert z / 2 == x * p + y / 2 && z % 2 == y % 2;
      LowBitsOfSum(x, y / 2, m - 1, k - 1);
    }
  }

  /** Appending j bits to a buffer. */
  lemma LowBitsAppend(x: nat, y: nat, k: nat, j: nat)
    requires y < Pow(2, j)
    ensures LowBits(x * Pow(2, j) + y, k + j) == LowBits(x, k) + LowBits(y, j)
  {
    PowPositive(2, j);
    LowBitsSplit(x * Pow(2, j) + y, k, j);
    DivModUnique(x * Pow(2, j) + y, Pow(2, j), x, y);
    LowBitsOfSum(x, y, j, j);
  }

  /** Cutting a buffer to m bits loses nothing below. */
  lemma LowBitsOfMod(x: nat, m: nat, k: nat)
    requires k <= m
    ensures Pow(2, m) > 0 && LowBits(x % Pow(2, m), k) == LowBits(x, k)
  {
    PowPositive(2, m);
    LowBitsOfSum(x / Pow(2, m), x % Pow(2, m), m, k);
    assert x == (x / Pow(2, m)) * Pow(2, m) + x % Pow(2, m);
  }

  lemma {:induction false} ValueOfLowBits(x: nat, k: nat)
    requires x < Pow(2, k)
    ensures BitsValue(LowBits(x, k)) == x
  {
    if k > 0 {
      ValueOfLowBits(x / 2, k - 1);
      assert LowBits(x, k)[..k - 1] == LowBits(x / 2, k - 1);
    }
  }

  lemma {:induction false} LowBitsOfValue(bs: seq<bool>)
    ensures BitsValue(bs) < Pow(2, |bs|) && LowBits(BitsValue(bs), |bs|) == bs
  {
    if bs != [] { LowBitsOfValue(bs[..|bs| - 1]); }
  }

  lemma DigitBitsEmpty(k: nat)
    ensures DigitBits(k, []) == [] && LowBits(0, 0) == []
  {
  }

  lemma DigitBitsSnoc(k: nat, ds: seq<nat>, d: nat)
    ensures DigitBits(k, ds + [d]) == DigitBits(k, ds) + LowBits(d, k)
  {
    assert (ds + [d])[..|ds|] == ds;
  }

  function Zeros(n: nat): seq<bool> {
    seq(n, _ => false)
  }

  lemma {:induction false} LowBitsOfZero(k: nat)
    ensures LowBits(0, k) == Zeros(k)
  {
    if k > 0 { LowBitsOfZero(k - 1); }
  }

  // ----- regrouping -----

  lemma LastDigit(k: nat, ds: seq<nat>)
    requires ds != []
    ensures var n := |ds| - 1;
            && DigitBits(k, ds) == DigitBits(k, ds[..n]) + LowBits(ds[n], k)
            && |DigitBits(k, ds[..n])| == k * n && k * |ds| == k * n + k
  {
    Distribute(k, |ds| - 1, 1);
  }

  lemma {:induction false} DigitsOfBits(k: nat, ds: seq<nat>, bs: seq<bool>, j: nat)
    requires k > 0 && j < |ds| && k * |ds| <= |bs| && DigitBits(k, ds) == bs[..k * |ds|]
    requires forall i :: 0 <= i < |ds| ==> ds[i] < Pow(2, k)
    ensures k * j + k <= |bs| && 0 <= k * j && ds[j] == BitsValue(bs[k * j..k * j + k])
  {
    hide DigitBits, LowBits, BitsValue, Pow;
    var n := |ds| - 1;
    LastDigit(k, ds);
    var m, init, last := k * n, DigitBits(k, ds[..n]), LowBits(ds[n], k);
    assert bs[..m + k] == init + last;
    if j == n {
      ValueOfLowBits(ds[n], k);
      assert bs[m..m + k] == bs[..m + k][m..] == last;
    } else {
      assert bs[..m] == bs[..m + k][..m] == init;
      DigitsOfBits(k, ds[..n], bs, j);
    }
  }

  /** And back: groups of k bits are the digits whose bits they are. */
  lemma {:induction false} BitsOfDigits(k: nat, ds: seq<nat>, bs: seq<bool>)
    requires k > 0 && k * |ds| <= |bs|
    requires forall j :: 0 <= j < |ds| ==> 0 <= k * j && k * j + k <= |bs| && ds[j] == BitsValue(bs[k * j..k * j + k])
    ensures DigitBits(k, ds) == bs[..k * |ds|]
  {
    hide DigitBits, LowBits, BitsValue;
    if ds == [] {
      DigitBitsEmpty(k);
      assert ds == [] && bs[..0] == [];
    } else {
      var n := |ds| - 1;
      Distribute(k, n, 1);
      var m := k * n;
      assert k * |ds| == m + k;
      var init := ds[..n];
      assert forall j :: 0 <= j < n ==> init[j] == ds[j];
      BitsOfDigits(k, init, bs);
      var group := bs[m..m + k];
      LowBitsOfValue(group);
      DigitBitsSnoc(k, init, ds[n]);
      assert ds == init + [ds[n]];
      assert bs[..m + k] == bs[..m] + group;
    }
  }

  lemma PowersOfTwo()
    ensures Pow(2, 5) == 32 && Pow(2, 8) == 256 && Pow(2, 32) == 0x1_0000_0000
  {
    assert Pow(2, 2) == 4;
    PowAdd(2, 2, 2);
    PowStep(2, 4);
    PowAdd(2, 4, 4);
    PowAdd(2, 8, 8);
    PowAdd(2, 16, 16);
  }

  lemma AppendAssociates(xs: seq<bool>, ys: seq<bool>, zs: seq<bool>)
    ensures (xs + ys) + zs == xs + (ys + zs)
  {
  }

  lemma {:induction false} ByteBitsAt(data: seq<nat>, i: nat)
    requires i < |data|
    ensures |ByteBits(data)| == 8 * |data| && ByteBits(data)[8 * i..8 * i + 8] == LowBits(data[i], 8)
  {
    var n := |data| - 1;
    if i < n {
      ByteBitsAt(data[..n], i);
      assert ByteBits(data)[..8 * n] == ByteBits(data[..n]);
      assert ByteBits(data)[8 * i..8 * i + 8] == ByteBits(data)[..8 * n][8 * i..8 * i + 8];
    } else {
      assert ByteBits(data)[8 * n..8 * n + 8] == LowBits(data[n], 8);
    }
  }

  lemma {:induction false} DigitBitsPrefix(k: nat, xs: seq<nat>, ys: seq<nat>)
    requires xs <= ys
    ensures DigitBits(k, xs) <= DigitBits(k, ys)
    decreases |ys|
  {
    if |xs| < |ys| {
      DigitBitsPrefix(k, xs, ys[..|ys| - 1]);
    } else {
      assert xs == ys;
    }
  }

  /** How many whole groups of k bits there are, and that each is where it should be. */
  lemma GroupsFit(k: nat, n: nat)
    requires k > 0
    ensures n / k >= 0 && k * (n / k) <= n
    ensures forall j :: 0 <= j < n / k ==> 0 <= k * j && k * j + k <= n
  {
    var c := n / k;
    WholeGroups(k, n);
    forall j | 0 <= j < c ensures 0 <= k * j && k * j + k <= n { GroupFits(k, c, n, j); }
  }

  lemma WholeGroups(k: nat, n: nat)
    requires k > 0
    ensures n / k >= 0 && k * (n / k) <= n
  {
    assert n == (n / k) * k + n % k;
  }

  lemma GroupFits(k: nat, c: nat, n: nat, j: nat)
    requires k * c <= n && j < c
    ensures 0 <= k * j && k * j + k <= n
  {
    MulMonotone(j + 1, c, k);
    Distribute(k, j, 1);
  }

  /** The bit string cut into digits of k bits; bits left over at the end are dropped. */
  function Regroup(k: nat, bs: seq<bool>): (ds: seq<nat>)
    requires k > 0
    ensures |ds| == |bs| / k
  {
    GroupsFit(k, |bs|);
    seq(|bs| / k, j requires 0 <= j < |bs| / k && 0 <= k * j && k * j + k <= |bs| => BitsValue(bs[k * j..k * j + k]))
  }

  lemma RegroupAt(k: nat, bs: seq<bool>, j: nat)
    requires k > 0 && j < |bs| / k
    ensures 0 <= k * j && k * j + k <= |bs| && Regroup(k, bs)[j] == BitsValue(bs[k * j..k * j + k])
    ensures Regroup(k, bs)[j] < Pow(2, k)
  {
    hide BitsValue, Pow, LowBits;
    GroupsFit(k, |bs|);
    LowBitsOfValue(bs[k * j..k * j + k]);
    assert |bs[k * j..k * j + k]| == k;
  }

  /** The bits of the digits are the bits that were cut. */
  lemma RegroupKeepsBits(k: nat, bs: seq<bool>)
    requires k > 0 && k * (|bs| / k) == |bs|
    ensures DigitBits(k, Regroup(k, bs)) == bs
    ensures forall j :: 0 <= j < |Regroup(k, bs)| ==> Regroup(k, bs)[j] < Pow(2, k)
  {
    hide BitsValue, Pow, DigitBits, Regroup;
    var ds := Regroup(k, bs);
    forall j | 0 <= j < |ds|
      ensures 0 <= k * j && k * j + k <= |bs| && ds[j] == BitsValue(bs[k * j..k * j + k]) && ds[j] < Pow(2, k)
    {
      RegroupAt(k, bs, j);
    }
    BitsOfDigits(k, ds, bs);
    assert bs[..|bs|] == bs;
  }

  /** Digits with the bits of the string, as far as they go, are its groups. */
  lemma RegroupIsUnique(k: nat, ds: seq<nat>, bs: seq<bool>)
    requires k > 0 && DigitBits(k, ds) <= bs && forall i :: 0 <= i < |ds| ==> ds[i] < Pow(2, k)
    ensures |ds| <= |bs| / k && ds == Regroup(k, bs)[..|ds|]
  {
    hide BitsValue, Pow, DigitBits, Regroup;
    GroupCount(k, |ds|, |bs|);
    assert DigitBits(k, ds) == bs[..k * |ds|];
    forall j | 0 <= j < |ds| ensures ds[j] == Regroup(k, bs)[j] {
      RegroupAt(k, bs, j);
      DigitsOfBits(k, ds, bs, j);
    }
  }

  lemma GroupCount(k: nat, c: nat, n: nat)
    requires k > 0 && k * c <= n
    ensures c <= n / k
  {
    var q := n / k;
    if c > q {
      MulMonotone(q + 1, c, k);
      Distribute(k, q, 1);
    }
  }

  /** Data filled up with zeros to a number of bits. */
  function Padded(data: seq<nat>, bits: nat): (bs: seq<bool>)
    requires 8 * |data| <= bits
    ensures |bs| == bits
  {
    ByteBits(data) + Zeros(bits - 8 * |data|)
  }

  /** Digits spelled in an alphabet. */
  function Spelled(ds: seq<nat>, alphabet: nat -> nat): (text: seq<nat>)
    ensures |text| == |ds| && forall j :: 0 <= j < |ds| ==> text[j] == alphabet(ds[j])
  {
    seq(|ds|, j requires 0 <= j < |ds| => alphabet(ds[j]))
  }

  /** Bytes come back out of their padded bits. */
  lemma BytesOfPadded(data: seq<nat>, bits: nat)
    requires AreBytes(data) && 8 * |data| <= bits
    ensures |data| <= bits / 8 && Regroup(8, Padded(data, bits))[..|data|] == data
  {
    hide DigitBits, Regroup, Pow;
    PowersOfTwo();
    RegroupIsUnique(8, data, Padded(data, bits));
  }
}
