/**
 SHA-256 (src/lib/sha256.c).  The specification is section 6.2.2 of FIPS 180-4 with its
 64-word schedule; `Compress` keeps only the last sixteen words of it.
 */
module Sha256 {

  type Word = bv32

  // ----- section 4.1.2: functions -----

  /** Addition modulo 2^32. */
  function Plus(x: Word, y: Word): Word { x + y }

  function Or(x: Word, y: Word): Word { x | y }

  function Xor(x: Word, y: Word): Word { x ^ y }

  function And(x: Word, y: Word): Word { x & y }

  function Not(x: Word): Word { !x }

  function Rotated(x: Word, n: Word): Word
    requires 0 < n < 32
  {
    (x >> n) | (x << (32 - n))
  }

  function Shifted(x: Word, n: Word): Word
    requires 0 < n < 32
  {
    x >> n
  }

  function SmallSigma0(x: Word): Word { Xor(Xor(Rotated(x, 7), Rotated(x, 18)), Shifted(x, 3)) }

  function SmallSigma1(x: Word): Word { Xor(Xor(Rotated(x, 17), Rotated(x, 19)), Shifted(x, 10)) }

  function BigSigma0(x: Word): Word { Xor(Xor(Rotated(x, 2), Rotated(x, 13)), Rotated(x, 22)) }

  function BigSigma1(x: Word): Word { Xor(Xor(Rotated(x, 6), Rotated(x, 11)), Rotated(x, 25)) }

  function Ch(x: Word, y: Word, z: Word): Word { Xor(And(x, y), And(Not(x), z)) }

  function Maj(x: Word, y: Word, z: Word): Word { Xor(Xor(And(x, y), And(x, z)), And(y, z)) }

  // ----- section 4.2.2 and 5.3.3: constants -----

  function K(t: nat): Word
    requires t < 64
  {
    [[0x428a2f98, 0x71374491, 0xb5c0fbcf, 0xe9b5dba5, 0x3956c25b, 0x59f111f1, 0x923f82a4, 0xab1c5ed5],
     [0xd807aa98, 0x12835b01, 0x243185be, 0x550c7dc3, 0x72be5d74, 0x80deb1fe, 0x9bdc06a7, 0xc19bf174],
     [0xe49b69c1, 0xefbe4786, 0x0fc19dc6, 0x240ca1cc, 0x2de92c6f, 0x4a7484aa, 0x5cb0a9dc, 0x76f988da],
     [0x983e5152, 0xa831c66d, 0xb00327c8, 0xbf597fc7, 0xc6e00bf3, 0xd5a79147, 0x06ca6351, 0x14292967],
     [0x27b70a85, 0x2e1b2138, 0x4d2c6dfc, 0x53380d13, 0x650a7354, 0x766a0abb, 0x81c2c92e, 0x92722c85],
     [0xa2bfe8a1, 0xa81a664b, 0xc24b8b70, 0xc76c51a3, 0xd192e819, 0xd6990624, 0xf40e3585, 0x106aa070],
     [0x19a4c116, 0x1e376c08, 0x2748774c, 0x34b0bcb5, 0x391c0cb3, 0x4ed8aa4a, 0x5b9cca4f, 0x682e6ff3],
     [0x748f82ee, 0x78a5636f, 0x84c87814, 0x8cc70208, 0x90befffa, 0xa4506ceb, 0xbef9a3f7, 0xc67178f2]][t / 8][t % 8]
  }

  function Initial(): (h: seq<Word>)
    ensures |h| == 8
  {
    [0x6a09e667, 0xbb67ae85, 0x3c6ef372, 0xa54ff53a, 0x510e527f, 0x9b05688c, 0x1f83d9ab, 0x5be0cd19]
  }

  // ----- section 6.2.2: one block -----

  function FourSum(x: Word, y: Word, z: Word, w: Word): Word {
    x + y + z + w
  }

  /** The message schedule, every word from the block. */
  function Schedule(m: seq<Word>, t: nat): Word
    requires |m| == 16
  {
    if t < 16 then m[t]
    else FourSum(SmallSigma1(Schedule(m, t - 2)), Schedule(m, t - 7), SmallSigma0(Schedule(m, t - 15)),
        Schedule(m, t - 16))
  }

  datatype Vars = Vars(a: Word, b: Word, c: Word, d: Word, e: Word, f: Word, g: Word, h: Word)

  function Step(v: Vars, k: Word, w: Word): Vars {
    var t1 := Plus(FourSum(v.h, BigSigma1(v.e), Ch(v.e, v.f, v.g), k), w);
    var t2 := Plus(BigSigma0(v.a), Maj(v.a, v.b, v.c));
    Vars(Plus(t1, t2), v.a, v.b, v.c, Plus(v.d, t1), v.e, v.f, v.g)
  }

  function Rounds(h: seq<Word>, m: seq<Word>, t: nat): Vars
    requires |h| == 8 && |m| == 16 && t <= 64
  {
    if t == 0 then Vars(h[0], h[1], h[2], h[3], h[4], h[5], h[6], h[7])
    else Step(Rounds(h, m, t - 1), K(t - 1), Schedule(m, t - 1))
  }

  function Compressed(h: seq<Word>, m: seq<Word>): (r: seq<Word>)
    requires |h| == 8 && |m| == 16
    ensures |r| == 8
  {
    Sum(h, Rounds(h, m, 64))
  }

  function Sum(h: seq<Word>, v: Vars): (r: seq<Word>)
    requires |h| == 8
    ensures |r| == 8
  {
    [Plus(h[0], v.a), Plus(h[1], v.b), Plus(h[2], v.c), Plus(h[3], v.d), Plus(h[4], v.e), Plus(h[5], v.f),
        Plus(h[6], v.g), Plus(h[7], v.h)]
  }

  // ----- whole messages -----

  /** The hash value after all blocks of a sequence of words. */
  function Absorb(words: seq<Word>): (h: seq<Word>)
    requires |words| % 16 == 0
    ensures |h| == 8
  {
    if words == [] then Initial()
    else
      var n := |words| - 16;
      Compressed(Absorb(words[..n]), words[n..])
  }

  function JoinBytes(b0: bv8, b1: bv8, b2: bv8, b3: bv8): Word {
    ((b0 as bv32) << 24) | ((b1 as bv32) << 16) | ((b2 as bv32) << 8) | (b3 as bv32)
  }

  /** Bytes read as big-endian words. */
  function WordsOf(bytes: seq<bv8>): (words: seq<Word>)
    requires |bytes| % 4 == 0
    ensures |words| == |bytes| / 4
  {
    seq(|bytes| / 4, j requires 0 <= j < |bytes| / 4 => JoinBytes(bytes[4 * j], bytes[4 * j + 1], bytes[4 * j + 2],
        bytes[4 * j + 3]))
  }

  function Zeros(n: nat): (z: seq<bv8>)
    ensures |z| == n
  {
    seq(n, _ => 0)
  }

  /** Zeros between the end mark and the length (section 5.1.1). */
  function Gap(n: nat): (k: nat)
    ensures k < 64 && (n + 1 + k) % 64 == 56
  {
    (119 - n % 64) % 64
  }

  /** The message, the mark, the zeros, and the length in bits as two words. */
  function Pad(msg: seq<bv8>, length: nat): (words: seq<Word>)
    requires length < 0x1_0000_0000
    ensures |words| % 16 == 0
  {
    Marked(msg) + LengthWords(length)
  }

  function Marked(msg: seq<bv8>): (words: seq<Word>)
    ensures |words| % 16 == 14
  {
    MarkedLength(|msg| + 1 + Gap(|msg|));
    WordsOf(msg + [0x80] + Zeros(Gap(|msg|)))
  }

  /** Mark and zeros fill the last block up to the two words of the length. */
  lemma MarkedLength(l: nat)
    requires l % 64 == 56
    ensures l % 4 == 0 && (l / 4) % 16 == 14
  {
    var q := l / 64;
    assert l == 4 * (16 * q + 14);
    assert l / 4 == 16 * q + 14;
  }

  function LengthWords(length: nat): (words: seq<Word>)
    requires length < 0x1_0000_0000
    ensures |words| == 2
  {
    [ToWord((8 * length) / 0x1_0000_0000), ToWord((8 * length) % 0x1_0000_0000)]
  }

  function ToWord(n: nat): Word
    requires n < 0x1_0000_0000
  {
    n as bv32
  }

  function WordBytes(w: Word): seq<bv8> {
    [((w >> 24) & 0xff) as bv8, ((w >> 16) & 0xff) as bv8, ((w >> 8) & 0xff) as bv8, (w & 0xff) as bv8]
  }

  function BytesOf(words: seq<Word>): (bytes: seq<bv8>)
    ensures |bytes| == 4 * |words|
  {
    if words == [] then [] else BytesOf(words[..|words| - 1]) + WordBytes(words[|words| - 1])
  }

  /** The digest of a message whose length field says `length`. */
  function DigestWithLength(msg: seq<bv8>, length: nat): seq<bv8>
    requires length < 0x1_0000_0000
  {
    BytesOf(Absorb(Pad(msg, length)))
  }

  /** The digest of section 6.2, for messages whose length in bits fits the C counters. */
  function Digest(msg: seq<bv8>): seq<bv8>
    requires |msg| < 0x1_0000_0000
  {
    DigestWithLength(msg, |msg|)
  }

  // ----- the rolling buffer -----

  /** Slot t % 16 holds word t of the schedule, for the sixteen words from i on. */
  ghost predicate Rolling(m: seq<Word>, chunk: seq<Word>, i: nat) {
    && |m| == 16 && |chunk| == 16
    && forall t :: i <= t < i + 16 && t < 64 ==> chunk[t % 16] == Schedule(m, t)
  }

  lemma RollingStep(m: seq<Word>, chunk: seq<Word>, i: nat)
    requires i < 64 && Rolling(m, chunk, i)
    ensures chunk[i % 16] == Schedule(m, i)
    ensures var next := if i < 48
                        then chunk[i % 16 := FourSum(chunk[i % 16], SmallSigma0(chunk[(i + 1) % 16]),
                            chunk[(i + 9) % 16], SmallSigma1(chunk[(i + 14) % 16]))]
                        else chunk;
            Rolling(m, next, i + 1)
  {
    hide SmallSigma0, SmallSigma1, Schedule, FourSum, Rolling;
    RollingSizes(m, chunk, i);
    RollingAt(m, chunk, i, i);
    if i < 48 {
      RollingAt(m, chunk, i, i + 1);
      RollingAt(m, chunk, i, i + 9);
      RollingAt(m, chunk, i, i + 14);
      NextWord(m, i);
      RollingReplace(m, chunk, i);
    } else {
      RollingShrinks(m, chunk, i);
    }
  }

  lemma RollingSizes(m: seq<Word>, chunk: seq<Word>, i: nat)
    requires Rolling(m, chunk, i)
    ensures |m| == 16 && |chunk| == 16
  {
  }

  lemma RollingAt(m: seq<Word>, chunk: seq<Word>, i: nat, t: nat)
    requires Rolling(m, chunk, i) && i <= t < i + 16 && t < 64
    ensures |chunk| == 16 && chunk[t % 16] == Schedule(m, t)
  {
  }

  lemma RollingReplace(m: seq<Word>, chunk: seq<Word>, i: nat)
    requires Rolling(m, chunk, i)
    ensures Rolling(m, chunk[i % 16 := Schedule(m, i + 16)], i + 1)
  {
    hide Schedule;
    var next := chunk[i % 16 := Schedule(m, i + 16)];
    forall t | i + 1 <= t < i + 17 && t < 64 ensures next[t % 16] == Schedule(m, t) {
      if t < i + 16 { assert t % 16 != i % 16; }
    }
  }

  lemma RollingShrinks(m: seq<Word>, chunk: seq<Word>, i: nat)
    requires Rolling(m, chunk, i) && i >= 48
    ensures Rolling(m, chunk, i + 1)
  {
    hide Schedule;
  }

  lemma NextWord(m: seq<Word>, i: nat)
    requires |m| == 16
    ensures Schedule(m, i + 16) == FourSum(Schedule(m, i), SmallSigma0(Schedule(m, i + 1)), Schedule(m, i + 9),
            SmallSigma1(Schedule(m, i + 14)))
  {
    hide SmallSigma0, SmallSigma1, FourSum;
    SumReordered(SmallSigma1(Schedule(m, i + 14)), Schedule(m, i + 9), SmallSigma0(Schedule(m, i + 1)), Schedule(m, i));
  }

  lemma SumReordered(x: Word, y: Word, z: Word, w: Word)
    ensures FourSum(x, y, z, w) == FourSum(w, z, y, x)
  {
  }

  method Compress(digest: array<Word>, chunk: array<Word>)
    requires digest.Length == 8 && chunk.Length == 16 && digest != chunk
    modifies digest, chunk
    ensures digest[..] == Compressed(old(digest[..]), old(chunk[..]))
  {
    hide SmallSigma0, SmallSigma1, BigSigma0, BigSigma1, Ch, Maj, K, Schedule, Rolling, Rounds, Plus, FourSum;
    ghost var hs, m := digest[..], chunk[..];
    var a, b, c, d := digest[0], digest[1], digest[2], digest[3];
    var e, f, g, h := digest[4], digest[5], digest[6], digest[7];
    RollingStarts(hs, m);
    var i := 0;
    while i < 64
      invariant 0 <= i <= 64 && digest[..] == hs
      invariant Rolling(m, chunk[..], i)
      invariant Vars(a, b, c, d, e, f, g, h) == Rounds(hs, m, i)
    {
      var w := chunk[i % 16];
      RollingStep(m, chunk[..], i);
      RoundStep(hs, m, i);
      ghost var was := chunk[..];
      if i < 48 {
        chunk[i % 16] := FourSum(chunk[i % 16], SmallSigma0(chunk[(i + 1) % 16]), chunk[(i + 9) % 16],
            SmallSigma1(chunk[(i + 14) % 16]));
        assert chunk[..] == was[i % 16 := FourSum(was[i % 16], SmallSigma0(was[(i + 1) % 16]), was[(i + 9) % 16],
            SmallSigma1(was[(i + 14) % 16]))];
      }
      var t2 := Plus(BigSigma0(a), Maj(a, b, c));
      var t1 := Plus(FourSum(h, BigSigma1(e), Ch(e, f, g), K(i)), w);
      h := g;
      g := f;
      f := e;
      e := Plus(d, t1);
      d := c;
      c := b;
      b := a;
      a := Plus(t1, t2);
      i := i + 1;
    }
    AddInto(digest, Vars(a, b, c, d, e, f, g, h));
    EightWords(digest[..]);
  }

  method AddInto(digest: array<Word>, v: Vars)
    requires digest.Length == 8
    modifies digest
    ensures digest[0] == Plus(old(digest[0]), v.a)
    ensures digest[1] == Plus(old(digest[1]), v.b)
    ensures digest[2] == Plus(old(digest[2]), v.c)
    ensures digest[3] == Plus(old(digest[3]), v.d)
    ensures digest[4] == Plus(old(digest[4]), v.e)
    ensures digest[5] == Plus(old(digest[5]), v.f)
    ensures digest[6] == Plus(old(digest[6]), v.g)
    ensures digest[7] == Plus(old(digest[7]), v.h)
  {
    hide Plus;
    digest[0] := Plus(digest[0], v.a);
    digest[1] := Plus(digest[1], v.b);
    digest[2] := Plus(digest[2], v.c);
    digest[3] := Plus(digest[3], v.d);
    digest[4] := Plus(digest[4], v.e);
    digest[5] := Plus(digest[5], v.f);
    digest[6] := Plus(digest[6], v.g);
    digest[7] := Plus(digest[7], v.h);
  }

  lemma EightWords(s: seq<Word>)
    requires |s| == 8
    ensures s == [s[0], s[1], s[2], s[3], s[4], s[5], s[6], s[7]]
  {
  }

  lemma RollingStarts(h: seq<Word>, m: seq<Word>)
    requires |h| == 8 && |m| == 16
    ensures Rolling(m, m, 0) && Rounds(h, m, 0) == Vars(h[0], h[1], h[2], h[3], h[4], h[5], h[6], h[7])
  {
  }

  lemma RoundStep(h: seq<Word>, m: seq<Word>, i: nat)
    requires |h| == 8 && |m| == 16 && i < 64
    ensures Rounds(h, m, i + 1) == Step(Rounds(h, m, i), K(i), Schedule(m, i))
  {
  }

  // ----- filling a block byte by byte -----

  /** A byte shifted to its place in a word. */
  function Place(b: bv8, r: nat): Word {
    var w := b as bv32;
    if r == 0 then w << 24 else if r == 1 then w << 16 else if r == 2 then w << 8 else w
  }

  /** The bit behind the last byte of the message. */
  function Mark(r: nat): Word {
    if r == 0 then 1 << 31 else if r == 1 then 1 << 23 else if r == 2 then 1 << 15 else 1 << 7
  }

  lemma Join0(b: bv8)
    ensures Or(JoinBytes(0, 0, 0, 0), Place(b, 0)) == JoinBytes(b, 0, 0, 0)
    ensures Xor(JoinBytes(0, 0, 0, 0), Mark(0)) == JoinBytes(0x80, 0, 0, 0)
  {
  }

  lemma Join1(b0: bv8, b: bv8)
    ensures Or(JoinBytes(b0, 0, 0, 0), Place(b, 1)) == JoinBytes(b0, b, 0, 0)
    ensures Xor(JoinBytes(b0, 0, 0, 0), Mark(1)) == JoinBytes(b0, 0x80, 0, 0)
  {
  }

  lemma Join2(b0: bv8, b1: bv8, b: bv8)
    ensures Or(JoinBytes(b0, b1, 0, 0), Place(b, 2)) == JoinBytes(b0, b1, b, 0)
    ensures Xor(JoinBytes(b0, b1, 0, 0), Mark(2)) == JoinBytes(b0, b1, 0x80, 0)
  {
  }

  lemma Join3(b0: bv8, b1: bv8, b2: bv8, b: bv8)
    ensures Or(JoinBytes(b0, b1, b2, 0), Place(b, 3)) == JoinBytes(b0, b1, b2, b)
    ensures Xor(JoinBytes(b0, b1, b2, 0), Mark(3)) == JoinBytes(b0, b1, b2, 0x80)
  {
  }

  lemma MarkIsPlaced(r: nat)
    ensures Mark(r) == Place(0x80, r)
  {
  }

  /** A block begun with some bytes and zero behind them. */
  function Begun(tail: seq<bv8>): (words: seq<Word>)
    requires |tail| <= 64
    ensures |words| == 16
  {
    WordsOf(tail + Zeros(64 - |tail|))
  }

  lemma BegunAt(tail: seq<bv8>, j: nat)
    requires |tail| <= 64 && j < 16
    ensures Begun(tail)[j] == JoinBytes(ByteOr0(tail, 4 * j), ByteOr0(tail, 4 * j + 1), ByteOr0(tail, 4 * j + 2),
            ByteOr0(tail, 4 * j + 3))
  {
    hide JoinBytes;
  }

  function ByteOr0(tail: seq<bv8>, i: nat): bv8 {
    if i < |tail| then tail[i] else 0
  }

  /** Or-ing a byte in extends the block; for the end mark exclusive-or does the same. */
  lemma BegunStep(tail: seq<bv8>, b: bv8)
    requires |tail| < 64
    ensures var r := |tail|;
            && Begun(tail + [b]) == Begun(tail)[r / 4 := Or(Begun(tail)[r / 4], Place(b, r % 4))]
            && Xor(Begun(tail)[r / 4], Mark(r % 4)) == Or(Begun(tail)[r / 4], Place(0x80, r % 4))
  {
    hide JoinBytes, Place, Mark, Begun, Or, Xor;
    var r, more := |tail|, tail + [b];
    forall j | 0 <= j < 16 && j != r / 4 ensures Begun(more)[j] == Begun(tail)[j] { OtherWord(tail, b, j); }
    ThisWord(tail, b);
  }

  lemma OtherWord(tail: seq<bv8>, b: bv8, j: nat)
    requires |tail| < 64 && j < 16 && j != |tail| / 4
    ensures Begun(tail + [b])[j] == Begun(tail)[j]
  {
    hide JoinBytes, Begun;
    BegunAt(tail, j);
    BegunAt(tail + [b], j);
  }

  lemma ThisWord(tail: seq<bv8>, b: bv8)
    requires |tail| < 64
    ensures var j, r := |tail| / 4, |tail| % 4;
            && Begun(tail + [b])[j] == Or(Begun(tail)[j], Place(b, r))
            && Xor(Begun(tail)[j], Mark(r)) == Or(Begun(tail)[j], Place(0x80, r))
  {
    hide JoinBytes, Place, Mark, Begun, Or, Xor;
    var j, r := |tail| / 4, |tail| % 4;
    BegunAt(tail, j);
    BegunAt(tail + [b], j);
    WordStep(ByteOr0(tail, 4 * j), ByteOr0(tail, 4 * j + 1), ByteOr0(tail, 4 * j + 2), b, r);
  }

  lemma WordStep(b0: bv8, b1: bv8, b2: bv8, b: bv8, r: nat)
    requires r < 4
    ensures var x0, x1, x2 := if r > 0 then b0 else 0, if r > 1 then b1 else 0, if r > 2 then b2 else 0;
            var w := JoinBytes(x0, x1, x2, 0);
            && Or(w, Place(b, r)) == JoinBytes(if r == 0 then b else x0, if r == 1 then b else x1,
                                              if r == 2 then b else x2, if r == 3 then b else 0)
            && Xor(w, Mark(r)) == Or(w, Place(0x80, r))
  {
    hide JoinBytes, Place, Mark, Or, Xor;
    if r == 0 {
      Join0(b);
      Join0(0x80);
    } else if r == 1 {
      Join1(b0, b);
      Join1(b0, 0x80);
    } else if r == 2 {
      Join2(b0, b1, b);
      Join2(b0, b1, 0x80);
    } else {
      Join3(b0, b1, b2, b);
      Join3(b0, b1, b2, 0x80);
    }
  }
}
