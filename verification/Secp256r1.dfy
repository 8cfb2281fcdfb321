/**
 Fast reduction modulo the P-256 prime: vli_mmod_fast_secp256r1 for 32-bit words
 (include/curve-specific.inc), the nine terms of section D.2.3 of FIPS 186-4 added and
 subtracted in place with a signed carry.
 */
module Secp256r1 {
  import opened Words
  import opened Vli

  const B: nat := 0x1_0000_0000
  const TWO_256: nat := 0x1_00000000_00000000_00000000_00000000_00000000_00000000_00000000_00000000
  const PRIME: nat := 0xffffffff_00000001_00000000_00000000_00000000_ffffffff_ffffffff_ffffffff
  const PRIME_WORDS: seq<nat> := [0xffffffff, 0xffffffff, 0xffffffff, 0, 0, 0, 1, 0xffffffff]

  /** An eight-word number, lowest word first. */
  function V8(w0: nat, w1: nat, w2: nat, w3: nat, w4: nat, w5: nat, w6: nat, w7: nat): int {
    w0 + 0x1_00000000 * w1 + 0x1_00000000_00000000 * w2 + 0x1_00000000_00000000_00000000 * w3
    + 0x1_00000000_00000000_00000000_00000000 * w4 + 0x1_00000000_00000000_00000000_00000000_00000000 * w5
    + 0x1_00000000_00000000_00000000_00000000_00000000_00000000 * w6
        + 0x1_00000000_00000000_00000000_00000000_00000000_00000000_00000000 * w7
  }

  lemma ValOfEight(s: seq<nat>)
    requires |s| == 8
    ensures Val(B, s) == V8(s[0], s[1], s[2], s[3], s[4], s[5], s[6], s[7])
  {
    ValUncons(s);
    ValUncons(s[1..]);
    ValUncons(s[2..]);
    ValUncons(s[3..]);
    ValUncons(s[4..]);
    ValUncons(s[5..]);
    ValUncons(s[6..]);
    ValUncons(s[7..]);
    assert s[8..] == [];
    ValEmpty(B);
  }

  lemma ValUncons(s: seq<nat>)
    requires s != []
    ensures Val(B, s) == s[0] + 0x1_00000000 * Val(B, s[1..])
    ensures forall i :: 1 <= i <= |s| ==> s[1..][i - 1..] == s[i..]
  {
  }

  lemma PowerOfEight()
    ensures Pow(B, 8) == TWO_256
  {
    assert Pow(B, 2) == B * B;
    PowAdd(B, 2, 2);
    PowAdd(B, 4, 4);
  }

  // ----- the terms of FIPS 186-4, D.2.3, for the product c[15]..c[0] -----

  function T(c: seq<nat>): int requires |c| == 16 { V8(c[0], c[1], c[2], c[3], c[4], c[5], c[6], c[7]) }
  function S1(c: seq<nat>): int requires |c| == 16 { V8(0, 0, 0, c[11], c[12], c[13], c[14], c[15]) }
  function S2(c: seq<nat>): int requires |c| == 16 { V8(0, 0, 0, c[12], c[13], c[14], c[15], 0) }
  function S3(c: seq<nat>): int requires |c| == 16 { V8(c[8], c[9], c[10], 0, 0, 0, c[14], c[15]) }
  function S4(c: seq<nat>): int requires |c| == 16 { V8(c[9], c[10], c[11], c[13], c[14], c[15], c[13], c[8]) }
  function D1(c: seq<nat>): int requires |c| == 16 { V8(c[11], c[12], c[13], 0, 0, 0, c[8], c[10]) }
  function D2(c: seq<nat>): int requires |c| == 16 { V8(c[12], c[13], c[14], c[15], 0, 0, c[9], c[11]) }
  function D3(c: seq<nat>): int requires |c| == 16 { V8(c[13], c[14], c[15], c[8], c[9], c[10], 0, c[12]) }
  function D4(c: seq<nat>): int requires |c| == 16 { V8(c[14], c[15], 0, c[9], c[10], c[11], 0, c[13]) }

  function Terms(c: seq<nat>): int
    requires |c| == 16
  {
    T(c) + 2 * S1(c) + 2 * S2(c) + S3(c) + S4(c) - D1(c) - D2(c) - D3(c) - D4(c)
  }

  /** How often the prime goes into the words above 2^256. */
  function Multiple(c8: nat, c9: nat, c10: nat, c11: nat, c12: nat, c13: nat, c14: nat, c15: nat): nat {
    c8 + 0x1_00000001 * c9 + 0x1_00000001_00000000 * c10 + 0x1_00000000_ffffffff_ffffffff * c11
    + 0x1_00000000_ffffffff_fffffffe_ffffffff * c12
    + 0x1_00000000_ffffffff_fffffffe_fffffffe_ffffffff * c13
    + 0x1_00000000_ffffffff_fffffffe_fffffffe_fffffffe_ffffffff * c14
    + 0x1_00000000_ffffffff_fffffffe_fffffffe_fffffffe_ffffffff_00000000 * c15
  }

  function Quotient(c: seq<nat>): nat
    requires |c| == 16
  {
    Multiple(c[8], c[9], c[10], c[11], c[12], c[13], c[14], c[15])
  }

  lemma SolinasIdentity(t: int, c8: nat, c9: nat, c10: nat, c11: nat, c12: nat, c13: nat, c14: nat, c15: nat)
    ensures t + 0x1_00000000_00000000_00000000_00000000_00000000_00000000_00000000_00000000 
                * V8(c8, c9, c10, c11, c12, c13, c14, c15)
            == t + 2 * V8(0, 0, 0, c11, c12, c13, c14, c15) + 2 * V8(0, 0, 0, c12, c13, c14, c15, 0)
               + V8(c8, c9, c10, 0, 0, 0, c14, c15) + V8(c9, c10, c11, c13, c14, c15, c13, c8)
               - V8(c11, c12, c13, 0, 0, 0, c8, c10) - V8(c12, c13, c14, c15, 0, 0, c9, c11)
               - V8(c13, c14, c15, c8, c9, c10, 0, c12) - V8(c14, c15, 0, c9, c10, c11, 0, c13)
               + Multiple(c8, c9, c10, c11, c12, c13, c14, c15)
                 * 0xffffffff_00000001_00000000_00000000_00000000_ffffffff_ffffffff_ffffffff
  {
  }

  /** The terms add up to the product, modulo the prime. */
  lemma TermsAreProduct(c: seq<nat>)
    requires |c| == 16
    ensures Val(B, c) == Terms(c) + Quotient(c) * PRIME
  {
    hide Val, Pow, V8, Multiple;
    ValOfSixteen(c);
    SolinasIdentity(T(c), c[8], c[9], c[10], c[11], c[12], c[13], c[14], c[15]);
  }

  lemma ValOfSixteen(c: seq<nat>)
    requires |c| == 16
    ensures Val(B, c) == T(c) + TWO_256 * V8(c[8], c[9], c[10], c[11], c[12], c[13], c[14], c[15])
  {
    hide Val, Pow;
    ValSplit(B, c, 8);
    ValOfEight(c[..8]);
    ValOfEight(c[8..]);
    PowerOfEight();
  }

  lemma PrimeValue()
    ensures AreWords(B, PRIME_WORDS) && Val(B, PRIME_WORDS) == PRIME
  {
    hide Val;
    ValOfEight(PRIME_WORDS);
  }

  // ----- the code -----

  /** The running value: the eight words and the signed carry above them. */
  ghost function Running(result: array<nat>, carry: int): int
    requires result.Length >= 8
    reads result
  {
    Num(B, result, 8) + carry * TWO_256
  }

  method Plus(result: array<nat>, tmp: array<nat>, carry: int) returns (carry': int)
    requires result.Length >= 8 && result != tmp && WordArray(B, result, 8) && WordArray(B, tmp, 8)
    modifies result
    ensures WordArray(B, result, 8) && Running(result, carry') == old(Running(result, carry)) + Num(B, tmp, 8)
  {
    hide Val, Pow;
    PowerOfEight();
    var c := Add(B, result, result, tmp, 8);
    carry' := carry + c;
  }

  method Minus(result: array<nat>, tmp: array<nat>, carry: int) returns (carry': int)
    requires result.Length >= 8 && result != tmp && WordArray(B, result, 8) && WordArray(B, tmp, 8)
    modifies result
    ensures WordArray(B, result, 8) && Running(result, carry') == old(Running(result, carry)) - Num(B, tmp, 8)
  {
    hide Val, Pow;
    PowerOfEight();
    var b := Sub(B, result, result, tmp, 8);
    carry' := carry - b;
  }

  method Load(tmp: array<nat>, w0: nat, w1: nat, w2: nat, w3: nat, w4: nat, w5: nat, w6: nat, w7: nat)
    requires tmp.Length == 8
    requires w0 < B && w1 < B && w2 < B && w3 < B && w4 < B && w5 < B && w6 < B && w7 < B
    modifies tmp
    ensures WordArray(B, tmp, 8) && Num(B, tmp, 8) == V8(w0, w1, w2, w3, w4, w5, w6, w7)
    ensures tmp[..] == [w0, w1, w2, w3, w4, w5, w6, w7]
  {
    hide Val;
    tmp[0], tmp[1], tmp[2], tmp[3] := w0, w1, w2, w3;
    tmp[4], tmp[5], tmp[6], tmp[7] := w4, w5, w6, w7;
    ValOfEight(tmp[..8]);
  }

  lemma LowWordZero(w: nat, rest: int, k: int)
    requires w < 0x1_00000000 && w + 0x1_00000000 * rest == 0x1_00000000 * k
    ensures w == 0 && rest == k
  {
  }

  /** Doubling a number whose three low words are zero leaves them zero. */
  lemma LowWordsStayZero(s: seq<nat>, high: nat, over: int)
    requires |s| == 8 && AreWords(B, s)
    requires Val(B, s) + over * TWO_256 == 0x1_00000000_00000000_00000000 * high
    ensures s[0] == s[1] == s[2] == 0
  {
    hide Val;
    ValOfEight(s);
    var r3 := s[3] + 0x1_00000000 * (s[4] + 0x1_00000000 * (s[5] + 0x1_00000000 * (s[6] + 0x1_00000000 * s[7])));
    var k := high - over * 0x1_00000000_00000000_00000000_00000000_00000000;
    LowWordZero(s[0], s[1] + 0x1_00000000 * (s[2] + 0x1_00000000 * r3), 0x1_00000000_00000000 * k);
    LowWordZero(s[1], s[2] + 0x1_00000000 * r3, 0x1_00000000 * k);
    LowWordZero(s[2], r3, k);
  }

  /** 2 * tmp is added, as two additions that share the carry; tmp starts with three zero words. */
  method PlusTwice(result: array<nat>, tmp: array<nat>, carry: int) returns (carry': int)
    requires result.Length >= 8 && tmp.Length == 8 && result != tmp && WordArray(B, result, 8) && WordArray(B, tmp, 8)
    requires tmp[0] == tmp[1] == tmp[2] == 0
    modifies result, tmp
    ensures WordArray(B, result, 8) && Running(result, carry') == old(Running(result, carry)) + 2 * old(Num(B, tmp, 8))
    ensures WordArray(B, tmp, 8) && tmp[0] == tmp[1] == tmp[2] == 0
  {
    hide Val, Pow;
    PowerOfEight();
    ghost var s := tmp[..8];
    ValOfEight(s);
    var c := Add(B, tmp, tmp, tmp, 8);
    LowWordsStayZero(tmp[..8], 2 * (s[3] + 0x1_00000000 *
        (s[4] + 0x1_00000000 * (s[5] + 0x1_00000000 * (s[6] + 0x1_00000000 * s[7])))), c);
    assert tmp[..8][0] == 0 && tmp[..8][1] == 0 && tmp[..8][2] == 0;
    ghost var r := result[..8];
    carry' := Plus(result, tmp, carry + c);
  }

  method PlusTerms(result: array<nat>, product: array<nat>, tmp: array<nat>) returns (carry: int)
    requires result.Length >= 8 && tmp.Length == 8 && result != product && result != tmp && product != tmp
    requires product.Length == 16 && WordArray(B, product, 16)
    modifies result, tmp
    ensures WordArray(B, result, 8)
    ensures var c := product[..]; Running(result, carry) == T(c) + 2 * S1(c) + 2 * S2(c) + S3(c) + S4(c)
  {
    hide Val, Pow, V8;
    assert forall i :: 0 <= i < 16 ==> product[i] == product[..16][i] < B;
    Set(result, product, 8);
    ValOfEight(result[..8]);
    Load(tmp, 0, 0, 0, product[11], product[12], product[13], product[14], product[15]);
    carry := PlusTwice(result, tmp, 0);
    tmp[3], tmp[4], tmp[5], tmp[6], tmp[7] := product[12], product[13], product[14], product[15], 0;
    ValOfEight(tmp[..8]);
    carry := PlusTwice(result, tmp, carry);
    Load(tmp, product[8], product[9], product[10], 0, 0, 0, product[14], product[15]);
    carry := Plus(result, tmp, carry);
    Load(tmp, product[9], product[10], product[11], product[13], product[14], product[15], product[13], product[8]);
    carry := Plus(result, tmp, carry);
  }

  method MinusTerms(result: array<nat>, product: array<nat>, tmp: array<nat>, carry0: int) returns (carry: int)
    requires result.Length >= 8 && tmp.Length == 8 && result != product && result != tmp && product != tmp
    requires WordArray(B, result, 8) && product.Length == 16 && WordArray(B, product, 16)
    modifies result, tmp
    ensures WordArray(B, result, 8)
    ensures var c := product[..]; Running(result, carry) == old(Running(result, carry0)) - D1(c) - D2(c) - D3(c) - D4(c)
  {
    hide Val, Pow, V8;
    assert forall i :: 0 <= i < 16 ==> product[i] == product[..16][i] < B;
    Load(tmp, product[11], product[12], product[13], 0, 0, 0, product[8], product[10]);
    carry := Minus(result, tmp, carry0);
    Load(tmp, product[12], product[13], product[14], product[15], 0, 0, product[9], product[11]);
    carry := Minus(result, tmp, carry);
    Load(tmp, product[13], product[14], product[15], product[8], product[9], product[10], 0, product[12]);
    carry := Minus(result, tmp, carry);
    Load(tmp, product[14], product[15], 0, product[9], product[10], product[11], 0, product[13]);
    carry := Minus(result, tmp, carry);
  }

  /** t + 2 s1 + 2 s2 + s3 + s4 - d1 - d2 - d3 - d4, in eight words and a signed carry. */
  method AddTerms(result: array<nat>, product: array<nat>) returns (carry: int)
    requires result.Length >= 8 && result != product && product.Length == 16 && WordArray(B, product, 16)
    modifies result
    ensures WordArray(B, result, 8)
    ensures Running(result, carry) == Terms(product[..])
  {
    hide Val, Pow, V8;
    var tmp := new nat[8];
    carry := PlusTerms(result, product, tmp);
    carry := MinusTerms(result, product, tmp, carry);
  }

  method MmodFast(result: array<nat>, product: array<nat>, prime: array<nat>)
    requires result.Length >= 8 && product.Length == 16 && prime.Length == 8 && prime[..] == PRIME_WORDS
    requires result != product && result != prime && WordArray(B, product, 16)
    modifies result
    ensures WordArray(B, result, 8)
    ensures Num(B, result, 8) == Num(B, product, 16) % PRIME
  {
    hide Val, Pow, Terms, Quotient;
    PrimeValue();
    assert prime[..8] == PRIME_WORDS;
    ghost var c := product[..];
    assert product[..16] == c;
    TermsAreProduct(c);
    var carry := AddTerms(result, product);
    ghost var q: int := Quotient(c);
    ValBound(B, result[..8]);
    PowerOfEight();
    if carry < 0 {
      while carry < 0
        invariant WordArray(B, result, 8) && prime[..8] == PRIME_WORDS
        invariant Running(result, carry) + q * PRIME == Val(B, c)
        invariant Num(B, result, 8) < TWO_256
        invariant carry < 0 || 0 <= Running(result, carry) < PRIME
        decreases -Running(result, carry)
      {
        carry := Plus(result, prime, carry);
        ValBound(B, result[..8]);
        q := q - 1;
      }
    } else {
      var cmp := Cmp(B, prime, result, 8);
      while carry != 0 || cmp != 1
        invariant WordArray(B, result, 8) && prime[..8] == PRIME_WORDS
        invariant Running(result, carry) + q * PRIME == Val(B, c)
        invariant Num(B, result, 8) < TWO_256 && carry >= 0
        invariant cmp == 1 <==> PRIME > Num(B, result, 8)
        decreases Running(result, carry)
      {
        carry := Minus(result, prime, carry);
        ValBound(B, result[..8]);
        cmp := Cmp(B, prime, result, 8);
        q := q + 1;
      }
    }
    DivModUnique(Val(B, c), PRIME, q, Num(B, result, 8));
  }
}
