/**
 Little-endian multi-word numbers: the value of a word sequence, and the facts about
 it that the word loops of src/lib/uECC.c rest on.  The word size is a parameter:
 `base` is 2^8, 2^32 or 2^64 in the C builds.
 */
module Words {

  predicate IsBase(base: nat) {
    base >= 2 && base % 2 == 0
  }

  function Pow(base: nat, n: nat): nat {
    if n == 0 then 1 else base * Pow(base, n - 1)
  }

  predicate AreWords(base: nat, s: seq<nat>) {
    forall i :: 0 <= i < |s| ==> s[i] < base
  }

  function Val(base: nat, s: seq<nat>): nat {
    if s == [] then 0 else s[0] + base * Val(base, s[1..])
  }

  // ----- arithmetic -----

  lemma Distribute(x: int, y: int, z: int)
    ensures x * (y + z) == x * y + x * z
    ensures (y + z) * x == y * x + z * x
  {
  }

  lemma Associate(x: int, y: int, z: int)
    ensures (x * y) * z == x * (y * z)
    ensures (x * y) * z == (x * z) * y
  {
  }

  lemma MulMonotone(x: nat, y: nat, z: nat)
    requires x <= y
    ensures x * z <= y * z && z * x <= z * y
  {
  }

  lemma ReduceOnce(x: nat, m: nat)
    requires x < 2 * m
    ensures x % m == if x < m then x else x - m
  {
    if x >= m {
      DivModUnique(x, m, 1, x - m);
    } else {
      DivModUnique(x, m, 0, x);
    }
  }

  lemma DivModUnique(x: int, m: nat, q: int, r: nat)
    requires m > 0 && r < m && x == q * m + r
    ensures x / m == q && x % m == r
  {
    var q', r' := x / m, x % m;
    assert x == q' * m + r' && 0 <= r' < m;
    if q' > q {
      assert (q' - q) * m >= m by { MulMonotone(1, q' - q, m); }
      Distribute(m, q', -q);
    } else if q' < q {
      assert (q - q') * m >= m by { MulMonotone(1, q - q', m); }
      Distribute(m, q, -q');
    }
  }

  lemma {:induction false} PowPositive(base: nat, n: nat)
    requires base > 0
    ensures Pow(base, n) > 0
  {
    if n > 0 {
      PowPositive(base, n - 1);
      MulMonotone(1, Pow(base, n - 1), base);
    }
  }

  lemma {:induction false} PowAdd(base: nat, m: nat, n: nat)
    ensures Pow(base, m + n) == Pow(base, m) * Pow(base, n)
  {
    if m == 0 {
    } else {
      PowAdd(base, m - 1, n);
      Associate(base, Pow(base, m - 1), Pow(base, n));
    }
  }

  lemma {:induction false} PowMonotone(base: nat, m: nat, n: nat)
    requires base > 0 && m <= n
    ensures Pow(base, m) <= Pow(base, n)
  {
    PowAdd(base, m, n - m);
    PowPositive(base, n - m);
    MulMonotone(1, Pow(base, n - m), Pow(base, m));
  }

  lemma {:induction false} PowOfPow(base: nat, m: nat, n: nat)
    ensures Pow(Pow(base, m), n) == Pow(base, m * n)
  {
    if n == 0 {
      assert m * n == 0;
    } else {
      PowOfPow(base, m, n - 1);
      Distribute(m, n - 1, 1);
      assert m * n == m + m * (n - 1);
      PowAdd(base, m, m * (n - 1));
    }
  }

  // ----- values -----

  lemma ValEmpty(base: nat)
    ensures Val(base, []) == 0 && Pow(base, 0) == 1
  {
  }

  lemma PowStep(base: nat, i: nat)
    ensures Pow(base, i + 1) == base * Pow(base, i)
  {
  }

  lemma ValCons(base: nat, w: nat, s: seq<nat>)
    ensures Val(base, [w] + s) == w + base * Val(base, s)
  {
    assert ([w] + s)[1..] == s;
  }

  lemma {:induction false} ValSplit(base: nat, s: seq<nat>, i: nat)
    requires i <= |s|
    ensures Val(base, s) == Val(base, s[..i]) + Pow(base, i) * Val(base, s[i..])
  {
    if i == 0 {
      assert s[0..] == s;
    } else {
      var t := s[1..];
      ValSplit(base, t, i - 1);
      assert s[..i][1..] == t[..i - 1] && t[i - 1..] == s[i..];
      assert Val(base, s[..i]) == s[0] + base * Val(base, t[..i - 1]);
      HornerStep(base, s[0], Val(base, t[..i - 1]), Pow(base, i - 1), Val(base, s[i..]));
    }
  }

  lemma HornerStep(base: int, w: int, lo: int, p: int, v: int)
    ensures w + base * (lo + p * v) == (w + base * lo) + (base * p) * v
  {
    Distribute(base, lo, p * v);
    Associate(base, p, v);
  }

  lemma ValSnoc(base: nat, s: seq<nat>, i: nat)
    requires i < |s|
    ensures Val(base, s[..i + 1]) == Val(base, s[..i]) + Pow(base, i) * s[i]
  {
    hide Val, Pow;
    var t := s[..i + 1];
    ValSplit(base, t, i);
    assert t[..i] == s[..i] && t[i..] == [s[i]];
    ValSingle(base, s[i]);
  }

  lemma ValAppend(base: nat, s: seq<nat>, w: nat)
    ensures Val(base, s + [w]) == Val(base, s) + Pow(base, |s|) * w
  {
    hide Val, Pow;
    var t := s + [w];
    ValSnoc(base, t, |s|);
    assert t[..|s|] == s && t[..|s| + 1] == t;
  }

  lemma ValSingle(base: nat, w: nat)
    ensures Val(base, [w]) == w
  {
    assert [w][1..] == [];
  }

  lemma {:induction false} ValBound(base: nat, s: seq<nat>)
    requires AreWords(base, s)
    ensures Val(base, s) < Pow(base, |s|)
  {
    if s != [] {
      ValBound(base, s[1..]);
      MulMonotone(Val(base, s[1..]) + 1, Pow(base, |s| - 1), base);
      Distribute(base, Val(base, s[1..]), 1);
    }
  }

  lemma {:induction false} ValZeros(base: nat, s: seq<nat>)
    requires base > 0
    ensures Val(base, s) == 0 <==> forall i :: 0 <= i < |s| ==> s[i] == 0
  {
    if s != [] {
      ValZeros(base, s[1..]);
      if Val(base, s[1..]) != 0 {
        MulMonotone(1, Val(base, s[1..]), base);
        var i :| 0 <= i < |s[1..]| && s[1..][i] != 0;
        assert s[i + 1] != 0;
      } else {
        assert forall i :: 1 <= i < |s| ==> s[i] == s[1..][i - 1];
      }
    }
  }

  /** A number is as large as its highest word says. */
  lemma ValTopWord(base: nat, s: seq<nat>)
    requires s != [] && AreWords(base, s) && base > 0
    ensures var n := |s| - 1;
            s[n] * Pow(base, n) <= Val(base, s) < (s[n] + 1) * Pow(base, n)
  {
    hide Val, Pow;
    var n := |s| - 1;
    ValSnoc(base, s, n);
    assert s[..n + 1] == s;
    ValBound(base, s[..n]);
    Distribute(Pow(base, n), s[n], 1);
  }

  /** Two numbers with the same high words compare by the word below. */
  lemma ValCompare(base: nat, s: seq<nat>, t: seq<nat>, i: nat)
    requires AreWords(base, s) && AreWords(base, t) && |s| == |t| && i < |s|
    requires s[i + 1..] == t[i + 1..] && s[i] < t[i]
    ensures Val(base, s) < Val(base, t)
  {
    hide Val, Pow;
    ValSplit(base, s, i + 1);
    ValSplit(base, t, i + 1);
    LastWordCompare(base, s[..i + 1], t[..i + 1]);
  }

  lemma LastWordCompare(base: nat, s: seq<nat>, t: seq<nat>)
    requires AreWords(base, s) && AreWords(base, t) && |s| == |t| > 0
    requires s[|s| - 1] < t[|t| - 1]
    ensures Val(base, s) < Val(base, t)
  {
    hide Val, Pow;
    var n := |s| - 1;
    ValTopWord(base, s);
    ValTopWord(base, t);
    MulMonotone(s[n] + 1, t[n], Pow(base, n));
  }

  lemma {:induction false} ValInjective(base: nat, s: seq<nat>, t: seq<nat>)
    requires AreWords(base, s) && AreWords(base, t) && |s| == |t| && Val(base, s) == Val(base, t)
    ensures s == t
  {
    if s != [] {
      DivModUnique(Val(base, s), base, Val(base, s[1..]), s[0]);
      DivModUnique(Val(base, t), base, Val(base, t[1..]), t[0]);
      ValInjective(base, s[1..], t[1..]);
      assert s == [s[0]] + s[1..] && t == [t[0]] + t[1..];
    }
  }

  lemma EvenMultiple(base: nat, v: nat)
    requires base % 2 == 0
    ensures (base * v) % 2 == 0
  {
    Associate(2, base / 2, v);
    assert base * v == 2 * ((base / 2) * v);
  }

  /** The parity of a number is the parity of its lowest word. */
  lemma ValParity(base: nat, s: seq<nat>)
    requires IsBase(base) && s != []
    ensures Val(base, s) % 2 == s[0] % 2
  {
    EvenMultiple(base, Val(base, s[1..]));
  }
}
